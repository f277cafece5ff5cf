/**
 * The index layout of the square grid mesh that CreateQuad.UpdateMesh
 * builds: a sideVerts x sideVerts lattice of vertices stored row-major in a
 * flat vertex array, and a flat triangle index buffer that gives every grid
 * cell two triangles in a fixed six-index pattern.
 *
 * Vertex positions are floating point in the component; here a vertex is its
 * integer grid point (row, col), where row drives X and col drives Z.
 */
module GridMesh {
  import opened Arith

  /** The bounds of the inspector range declared for sideVerts. */
  const MinSideVerts: int := 2
  const MaxSideVerts: int := 1000

  /** The largest value of the 32-bit signed integers the component computes with. */
  const Int32Max: int := 0x7fff_ffff

  /** sideVerts within the inspector range. */
  predicate ValidSideVerts(n: int) {
    MinSideVerts <= n <= MaxSideVerts
  }

  /** A grid with at least one cell: the layout facts below hold for every such side length. */
  predicate GridSide(n: int) {
    MinSideVerts <= n
  }

  /** A vertex, given by its place on the grid. */
  datatype GridPoint = GridPoint(row: int, col: int)

  predicate OnGrid(n: int, p: GridPoint) {
    0 <= p.row < n && 0 <= p.col < n
  }

  /** The slot of grid point (row, col) in the flat vertex array. */
  function VertexSlot(n: int, row: int, col: int): int {
    row * n + col
  }

  /** Length of the vertex array. */
  function VertexCount(n: int): int {
    n * n
  }

  /** Number of grid cells, one quad each. */
  function QuadCount(n: int): int {
    (n - 1) * (n - 1)
  }

  /** Length of the triangle index buffer: six indices per quad. */
  function TriangleBufferLength(n: int): int {
    (n - 1) * (n - 1) * 6
  }

  /** Row-major number of grid cell (row, col); there are n - 1 cells per row. */
  function QuadNumberOf(n: int, row: int, col: int): int {
    row * (n - 1) + col
  }

  /** Buffer position of the first index of quad (row, col); quads are numbered row-major. */
  function QuadOffset(n: int, row: int, col: int): int {
    6 * (row * (n - 1) + col)
  }

  /**
   * The six corners a cell contributes, in buffer order, as offsets from its
   * lower corner: the triangle (0,0) (0,1) (1,0), then (0,1) (1,1) (1,0).
   */
  const CornerRowOffset: seq<int> := [0, 0, 1, 0, 1, 1]
  const CornerColOffset: seq<int> := [0, 1, 0, 1, 1, 0]

  function QuadCorner(row: int, col: int, j: int): GridPoint
    requires 0 <= j < 6
  {
    GridPoint(row + CornerRowOffset[j], col + CornerColOffset[j])
  }

  /** Row `row` of the vertex array: its n grid points in column order. */
  function VertexRow(n: int, row: int): seq<GridPoint>
    requires 0 <= n
  {
    seq(n, col => GridPoint(row, col))
  }

  /** The first `rows` rows of the vertex array, one after the other. */
  function VertexRows(n: int, rows: int): seq<GridPoint>
    requires 0 <= n && 0 <= rows
    decreases rows
  {
    if rows == 0 then [] else VertexRows(n, rows - 1) + VertexRow(n, rows - 1)
  }

  /** The vertex array: all n rows of the grid. */
  function Vertices(n: int): seq<GridPoint>
    requires 1 <= n
  {
    VertexRows(n, n)
  }

  /** The slot, in the vertex array, of corner j of cell (row, col). */
  function CornerSlot(n: int, row: int, col: int, j: int): int
    requires 0 <= j < 6
  {
    var p := QuadCorner(row, col, j);
    VertexSlot(n, p.row, p.col)
  }

  /** The six indices cell (row, col) contributes to the triangle buffer. */
  function QuadIndices(n: int, row: int, col: int): seq<int> {
    seq(6, j requires 0 <= j < 6 => CornerSlot(n, row, col, j))
  }

  /** The indices of the first `cols` cells of grid row `row`, cell after cell. */
  function QuadStrip(n: int, row: int, cols: int): seq<int>
    requires 0 <= cols
    decreases cols
  {
    if cols == 0 then [] else QuadStrip(n, row, cols - 1) + QuadIndices(n, row, cols - 1)
  }

  /** The indices of the first `rows` rows of cells, row after row. */
  function QuadStrips(n: int, rows: int): seq<int>
    requires 1 <= n && 0 <= rows
    decreases rows
  {
    if rows == 0 then [] else QuadStrips(n, rows - 1) + QuadStrip(n, rows - 1, n - 1)
  }

  /** The triangle index buffer: every cell of the grid, in row-major order. */
  function Triangles(n: int): seq<int>
    requires GridSide(n)
  {
    QuadStrips(n, n - 1)
  }

  /** Signed area (doubled) of a triangle of grid points in the (row, col) plane. */
  function Orientation(a: GridPoint, b: GridPoint, c: GridPoint): int {
    (b.row - a.row) * (c.col - a.col) - (b.col - a.col) * (c.row - a.row)
  }

  // ---------------------------------------------------------------------
  // Vertex layout
  // ---------------------------------------------------------------------

  /** A grid point's slot lies inside the vertex array, and division by n gives back the point. */
  lemma {:induction false} SlotDecode(n: int, row: int, col: int)
    requires 1 <= n && 0 <= row < n && 0 <= col < n
    ensures 0 <= VertexSlot(n, row, col) < VertexCount(n)
    ensures VertexSlot(n, row, col) / n == row && VertexSlot(n, row, col) % n == col
  {
    MulNonNegative(row, n);
    MulLeq(row, n - 1, n);
    DivModOfSum(n, row, col);
  }

  /** Every slot of the vertex array is the slot of a grid point: (k / n, k % n). */
  lemma {:induction false} SlotOnto(n: int, k: int)
    requires 1 <= n && 0 <= k < VertexCount(n)
    ensures OnGrid(n, GridPoint(k / n, k % n))
    ensures VertexSlot(n, k / n, k % n) == k
  {
    if k / n >= n {
      MulLeq(n, k / n, n);
      assert false;
    }
  }

  /** Distinct grid points have distinct slots: no vertex slot is written twice. */
  lemma {:induction false} SlotInjective(n: int, p: GridPoint, p': GridPoint)
    requires 1 <= n && OnGrid(n, p) && OnGrid(n, p')
    requires VertexSlot(n, p.row, p.col) == VertexSlot(n, p'.row, p'.col)
    ensures p == p'
  {
    SlotDecode(n, p.row, p.col);
    SlotDecode(n, p'.row, p'.col);
  }

  lemma {:induction false} VertexRowsLength(n: int, rows: int)
    requires 0 <= n && 0 <= rows
    ensures |VertexRows(n, rows)| == rows * n
    decreases rows
  {
    if rows > 0 {
      VertexRowsLength(n, rows - 1);
      assert (rows - 1) * n + n == rows * n;
    }
  }

  /** The first `rows` rows hold grid point (row, col) in slot row * n + col. */
  lemma {:induction false} VertexRowsAt(n: int, rows: int, row: int, col: int)
    requires 0 <= row < rows && 0 <= col < n
    ensures 0 <= VertexSlot(n, row, col) < |VertexRows(n, rows)|
    ensures VertexRows(n, rows)[VertexSlot(n, row, col)] == GridPoint(row, col)
    decreases rows
  {
    VertexRowsLength(n, rows);
    VertexRowsLength(n, rows - 1);
    MulNonNegative(row, n);
    if row < rows - 1 {
      VertexRowsAt(n, rows - 1, row, col);
    }
  }

  /** The vertex array holds grid point (row, col) in slot row * n + col. */
  lemma {:induction false} VertexAtSlot(n: int, row: int, col: int)
    requires 1 <= n && 0 <= row < n && 0 <= col < n
    ensures 0 <= VertexSlot(n, row, col) < |Vertices(n)|
    ensures Vertices(n)[VertexSlot(n, row, col)] == GridPoint(row, col)
  {
    VertexRowsAt(n, n, row, col);
  }

  /**
   * The vertex array has n * n slots and holds every grid point exactly once:
   * slot k holds the point (k / n, k % n), whose slot is k.
   */
  lemma {:induction false} VerticesAreTheGrid(n: int)
    requires 1 <= n
    ensures |Vertices(n)| == VertexCount(n)
    ensures forall k :: 0 <= k < |Vertices(n)| ==>
      Vertices(n)[k] == GridPoint(k / n, k % n) && OnGrid(n, Vertices(n)[k]) &&
      VertexSlot(n, Vertices(n)[k].row, Vertices(n)[k].col) == k
  {
    VertexRowsLength(n, n);
    forall k | 0 <= k < |Vertices(n)|
      ensures Vertices(n)[k] == GridPoint(k / n, k % n) && OnGrid(n, Vertices(n)[k])
      ensures VertexSlot(n, Vertices(n)[k].row, Vertices(n)[k].col) == k
    {
      SlotOnto(n, k);
      VertexAtSlot(n, k / n, k % n);
    }
  }

  /** Fills the vertex array row by row, each grid point into its own slot. */
  method BuildVertices(n: int) returns (vertices: array<GridPoint>)
    requires GridSide(n)
    ensures fresh(vertices)
    ensures vertices[..] == Vertices(n)
  {
    MulNonNegative(n, n);
    VertexRowsLength(n, n);
    vertices := new GridPoint[n * n](_ => GridPoint(0, 0));
    for row := 0 to n
      invariant row * n <= n * n
      invariant forall k :: 0 <= k < row * n ==> vertices[k] == Vertices(n)[k]
    {
      for col := 0 to n
        invariant row * n + col <= n * n
        invariant forall k :: 0 <= k < row * n + col ==> vertices[k] == Vertices(n)[k]
      {
        VertexAtSlot(n, row, col);
        vertices[row * n + col] := GridPoint(row, col);
      }
      assert row * n + n == (row + 1) * n;
    }
  }

  // ---------------------------------------------------------------------
  // Triangle index buffer
  // ---------------------------------------------------------------------

  lemma {:induction false} QuadStripLength(n: int, row: int, cols: int)
    requires 0 <= cols
    ensures |QuadStrip(n, row, cols)| == 6 * cols
    decreases cols
  {
    if cols > 0 {
      QuadStripLength(n, row, cols - 1);
    }
  }

  /** Within a strip, cell col occupies positions 6 col .. 6 col + 5. */
  lemma {:induction false} QuadStripAt(n: int, row: int, cols: int, col: int)
    requires 0 <= col < cols
    ensures 6 * col + 6 <= |QuadStrip(n, row, cols)|
    ensures forall j :: 0 <= j < 6 ==> QuadStrip(n, row, cols)[6 * col + j] == QuadIndices(n, row, col)[j]
    decreases cols
  {
    QuadStripLength(n, row, cols - 1);
    if col < cols - 1 {
      QuadStripAt(n, row, cols - 1, col);
    }
  }

  lemma {:induction false} QuadStripsLength(n: int, rows: int)
    requires 1 <= n && 0 <= rows
    ensures |QuadStrips(n, rows)| == 6 * (rows * (n - 1))
    decreases rows
  {
    if rows > 0 {
      QuadStripsLength(n, rows - 1);
      QuadStripLength(n, rows - 1, n - 1);
      assert (rows - 1) * (n - 1) + (n - 1) == rows * (n - 1);
    }
  }

  /** Within the first `rows` rows of cells, cell (row, col) occupies positions QuadOffset .. QuadOffset + 5. */
  lemma {:induction false} QuadStripsAt(n: int, rows: int, row: int, col: int)
    requires 1 <= n && 0 <= row < rows && 0 <= col < n - 1
    ensures 0 <= QuadOffset(n, row, col) && QuadOffset(n, row, col) + 6 <= |QuadStrips(n, rows)|
    ensures forall j :: 0 <= j < 6 ==>
      QuadStrips(n, rows)[QuadOffset(n, row, col) + j] == QuadIndices(n, row, col)[j]
    decreases rows
  {
    QuadStripsLength(n, rows - 1);
    MulNonNegative(row, n - 1);
    if row < rows - 1 {
      QuadStripsAt(n, rows - 1, row, col);
    } else {
      QuadStripAt(n, row, n - 1, col);
    }
  }

  /** The buffer has exactly the allocated length and holds 2 (n - 1)^2 triangles. */
  lemma {:induction false} TriangleCount(n: int)
    requires GridSide(n)
    ensures |Triangles(n)| == TriangleBufferLength(n)
    ensures |Triangles(n)| % 3 == 0
    ensures |Triangles(n)| / 3 == 2 * QuadCount(n)
  {
    QuadStripsLength(n, n - 1);
  }

  /** The six indices of cell (row, col), written out. */
  lemma {:induction false} QuadIndicesValues(n: int, row: int, col: int)
    ensures |QuadIndices(n, row, col)| == 6
    ensures QuadIndices(n, row, col)[0] == row * n + col
    ensures QuadIndices(n, row, col)[1] == row * n + (col + 1)
    ensures QuadIndices(n, row, col)[2] == (row + 1) * n + col
    ensures QuadIndices(n, row, col)[3] == row * n + (col + 1)
    ensures QuadIndices(n, row, col)[4] == (row + 1) * n + (col + 1)
    ensures QuadIndices(n, row, col)[5] == (row + 1) * n + col
  {
  }

  /** The six buffer entries of cell (row, col), in the order the component writes them. */
  lemma {:induction false} QuadEntries(n: int, row: int, col: int)
    requires GridSide(n) && 0 <= row < n - 1 && 0 <= col < n - 1
    ensures 0 <= QuadOffset(n, row, col) && QuadOffset(n, row, col) + 6 <= |Triangles(n)|
    ensures Triangles(n)[QuadOffset(n, row, col)] == row * n + col
    ensures Triangles(n)[QuadOffset(n, row, col) + 1] == row * n + (col + 1)
    ensures Triangles(n)[QuadOffset(n, row, col) + 2] == (row + 1) * n + col
    ensures Triangles(n)[QuadOffset(n, row, col) + 3] == row * n + (col + 1)
    ensures Triangles(n)[QuadOffset(n, row, col) + 4] == (row + 1) * n + (col + 1)
    ensures Triangles(n)[QuadOffset(n, row, col) + 5] == (row + 1) * n + col
  {
    QuadIndicesValues(n, row, col);
    QuadStripsAt(n, n - 1, row, col);
  }

  /**
   * Cell (row, col) occupies buffer positions QuadOffset .. QuadOffset + 5,
   * which hold v(r,c), v(r,c+1), v(r+1,c), v(r,c+1), v(r+1,c+1), v(r+1,c).
   */
  lemma {:induction false} QuadLayout(n: int, row: int, col: int)
    requires GridSide(n) && 0 <= row < n - 1 && 0 <= col < n - 1
    ensures 0 <= QuadOffset(n, row, col) && QuadOffset(n, row, col) + 6 <= |Triangles(n)|
    ensures Triangles(n)[QuadOffset(n, row, col)..QuadOffset(n, row, col) + 6] ==
      [ VertexSlot(n, row, col), VertexSlot(n, row, col + 1), VertexSlot(n, row + 1, col),
        VertexSlot(n, row, col + 1), VertexSlot(n, row + 1, col + 1), VertexSlot(n, row + 1, col) ]
  {
    QuadEntries(n, row, col);
  }

  /** Quad number q, counted row-major, is the cell (q / (n - 1), q % (n - 1)) of the grid. */
  lemma {:induction false} QuadNumber(n: int, q: int) returns (row: int, col: int)
    requires GridSide(n) && 0 <= q < QuadCount(n)
    ensures 0 <= row < n - 1 && 0 <= col < n - 1
    ensures q == QuadNumberOf(n, row, col)
    ensures forall r, c :: 0 <= r < n - 1 && 0 <= c < n - 1 && QuadNumberOf(n, r, c) == q ==>
      r == row && c == col
  {
    row, col := q / (n - 1), q % (n - 1);
    DivModBounds(q, n - 1);
    if row >= n - 1 {
      MulLeq(n - 1, row, n - 1);
      assert false;
    }
    forall r, c | 0 <= r < n - 1 && 0 <= c < n - 1 && QuadNumberOf(n, r, c) == q
      ensures r == row && c == col
    {
      SlotInjective(n - 1, GridPoint(r, c), GridPoint(row, col));
    }
  }

  /** Every buffer position belongs to a cell of the grid, at one of its six corners. */
  lemma {:induction false} PositionInQuad(n: int, k: int) returns (row: int, col: int, j: int)
    requires GridSide(n) && 0 <= k < TriangleBufferLength(n)
    ensures 0 <= row < n - 1 && 0 <= col < n - 1 && 0 <= j < 6
    ensures k == QuadOffset(n, row, col) + j
  {
    var q := k / 6;
    j := k % 6;
    DivModBounds(k, 6);
    if q >= QuadCount(n) {
      MulLeq(QuadCount(n), q, 6);
      assert false;
    }
    row, col := QuadNumber(n, q);
  }

  /** Triangle t (buffer entries 3t, 3t+1, 3t+2) is the first (h = 0) or second (h = 1) triangle of a cell. */
  lemma {:induction false} TriangleInQuad(n: int, t: int) returns (row: int, col: int, h: int)
    requires GridSide(n) && 0 <= t < 2 * QuadCount(n)
    ensures 0 <= row < n - 1 && 0 <= col < n - 1 && 0 <= h < 2
    ensures 3 * t == QuadOffset(n, row, col) + 3 * h
  {
    var q := t / 2;
    h := t % 2;
    row, col := QuadNumber(n, q);
  }

  /** Entry j of cell (row, col) refers to corner j of that cell. */
  lemma {:induction false} QuadShape(n: int, row: int, col: int, j: int)
    requires GridSide(n) && 0 <= row < n - 1 && 0 <= col < n - 1 && 0 <= j < 6
    ensures 0 <= QuadOffset(n, row, col) + j < |Triangles(n)|
    ensures 0 <= Triangles(n)[QuadOffset(n, row, col) + j] < |Vertices(n)|
    ensures Vertices(n)[Triangles(n)[QuadOffset(n, row, col) + j]] == QuadCorner(row, col, j)
  {
    QuadStripsAt(n, n - 1, row, col);
    assert Triangles(n)[QuadOffset(n, row, col) + j] == QuadIndices(n, row, col)[j];
    var p := QuadCorner(row, col, j);
    VertexAtSlot(n, p.row, p.col);
  }

  /** Entry k of the triangle buffer names a slot of the vertex array. */
  lemma {:induction false} EntryInBounds(n: int, k: int)
    requires GridSide(n) && 0 <= k < |Triangles(n)|
    ensures 0 <= Triangles(n)[k] < VertexCount(n)
  {
    TriangleCount(n);
    var row, col, j := PositionInQuad(n, k);
    QuadStripsAt(n, n - 1, row, col);
    assert Triangles(n)[k] == QuadIndices(n, row, col)[j];
    var p := QuadCorner(row, col, j);
    SlotDecode(n, p.row, p.col);
  }

  /** Every index in the triangle buffer names a slot of the vertex array. */
  lemma {:induction false} TriangleIndicesInBounds(n: int)
    requires GridSide(n)
    ensures forall k :: 0 <= k < |Triangles(n)| ==> 0 <= Triangles(n)[k] < VertexCount(n)
  {
    forall k | 0 <= k < |Triangles(n)|
      ensures 0 <= Triangles(n)[k] < VertexCount(n)
    {
      EntryInBounds(n, k);
    }
  }

  /** Both triangles of a cell, taken corner by corner, wind the same way. */
  lemma {:induction false} CellWinding(row: int, col: int)
    ensures Orientation(QuadCorner(row, col, 0), QuadCorner(row, col, 1), QuadCorner(row, col, 2)) == -1
    ensures Orientation(QuadCorner(row, col, 3), QuadCorner(row, col, 4), QuadCorner(row, col, 5)) == -1
  {
  }

  /**
   * Every triangle (buffer entries 3t, 3t+1, 3t+2) has the same winding in the
   * grid plane, so none is degenerate and all face the same way.
   */
  lemma {:induction false} TriangleWinding(n: int, t: int)
    requires GridSide(n) && 0 <= t < |Triangles(n)| / 3
    ensures 3 * t + 3 <= |Triangles(n)|
    ensures 0 <= Triangles(n)[3 * t] < |Vertices(n)|
    ensures 0 <= Triangles(n)[3 * t + 1] < |Vertices(n)|
    ensures 0 <= Triangles(n)[3 * t + 2] < |Vertices(n)|
    ensures Orientation(Vertices(n)[Triangles(n)[3 * t]], Vertices(n)[Triangles(n)[3 * t + 1]],
                        Vertices(n)[Triangles(n)[3 * t + 2]]) == -1
  {
    TriangleCount(n);
    var row, col, h := TriangleInQuad(n, t);
    HalfWinding(n, row, col, 3 * h);
  }

  /** The triangle starting at entry j (0 or 3) of cell (row, col) has orientation -1. */
  lemma {:induction false} HalfWinding(n: int, row: int, col: int, j: int)
    requires GridSide(n) && 0 <= row < n - 1 && 0 <= col < n - 1 && (j == 0 || j == 3)
    ensures 0 <= QuadOffset(n, row, col) + j && QuadOffset(n, row, col) + j + 3 <= |Triangles(n)|
    ensures var o := QuadOffset(n, row, col) + j;
      0 <= Triangles(n)[o] < |Vertices(n)| && 0 <= Triangles(n)[o + 1] < |Vertices(n)| &&
      0 <= Triangles(n)[o + 2] < |Vertices(n)| &&
      Orientation(Vertices(n)[Triangles(n)[o]], Vertices(n)[Triangles(n)[o + 1]],
                  Vertices(n)[Triangles(n)[o + 2]]) == -1
  {
    CellWinding(row, col);
    QuadShape(n, row, col, j);
    QuadShape(n, row, col, j + 1);
    QuadShape(n, row, col, j + 2);
  }

  /** No triangle is degenerate: its three indices are pairwise distinct. */
  lemma {:induction false} NoDegenerateTriangle(n: int, t: int)
    requires GridSide(n) && 0 <= t < |Triangles(n)| / 3
    ensures 3 * t + 3 <= |Triangles(n)|
    ensures Triangles(n)[3 * t] != Triangles(n)[3 * t + 1]
    ensures Triangles(n)[3 * t] != Triangles(n)[3 * t + 2]
    ensures Triangles(n)[3 * t + 1] != Triangles(n)[3 * t + 2]
  {
    TriangleWinding(n, t);
  }

  /** The two triangles of cell (row, col) share exactly its diagonal edge. */
  lemma {:induction false} SharedDiagonal(n: int, row: int, col: int)
    requires GridSide(n) && 0 <= row < n - 1 && 0 <= col < n - 1
    ensures 0 <= QuadOffset(n, row, col) && QuadOffset(n, row, col) + 6 <= |Triangles(n)|
    ensures var o := QuadOffset(n, row, col);
      {Triangles(n)[o], Triangles(n)[o + 1], Triangles(n)[o + 2]} *
      {Triangles(n)[o + 3], Triangles(n)[o + 4], Triangles(n)[o + 5]} ==
      {VertexSlot(n, row, col + 1), VertexSlot(n, row + 1, col)}
  {
    QuadEntries(n, row, col);
    assert (row + 1) * n == row * n + n;
  }

  /** Within the inspector range, the array sizes the component computes fit a 32-bit int. */
  lemma {:induction false} FitsInt32(n: int)
    requires ValidSideVerts(n)
    ensures VertexCount(n) <= Int32Max
    ensures TriangleBufferLength(n) <= Int32Max
  {
    MulLeq(n, MaxSideVerts, n);
    MulLeq(n, MaxSideVerts, MaxSideVerts);
    MulLeq(n - 1, MaxSideVerts, n - 1);
    MulLeq(n - 1, MaxSideVerts, MaxSideVerts);
  }

  /**
   * Beyond the inspector range the 32-bit sizes overflow: the triangle
   * buffer length from sideVerts = 18920 on, the vertex count from 46341 on.
   */
  lemma {:induction false} Int32Overflow(n: int)
    ensures TriangleBufferLength(18919) <= Int32Max && VertexCount(46340) <= Int32Max
    ensures 18920 <= n ==> TriangleBufferLength(n) > Int32Max
    ensures 46341 <= n ==> VertexCount(n) > Int32Max
  {
    if 18920 <= n {
      MulLeq(18919, n - 1, 18919);
      MulLeq(18919, n - 1, n - 1);
    }
    if 46341 <= n {
      MulLeq(46341, n, 46341);
      MulLeq(46341, n, n);
    }
  }

  /** Fills the triangle buffer cell by cell, advancing a running write position i. */
  method BuildTriangles(n: int) returns (triangles: array<int>)
    requires GridSide(n)
    ensures fresh(triangles)
    ensures triangles[..] == Triangles(n)
  {
    TriangleCount(n);
    triangles := new int[(n - 1) * (n - 1) * 6](_ => 0);
    var i := 0;
    for row := 0 to n - 1
      invariant i == 6 * (row * (n - 1)) <= triangles.Length
      invariant forall k :: 0 <= k < i ==> triangles[k] == Triangles(n)[k]
    {
      for col := 0 to n - 1
        invariant i == QuadOffset(n, row, col) <= triangles.Length
        invariant forall k :: 0 <= k < i ==> triangles[k] == Triangles(n)[k]
      {
        QuadEntries(n, row, col);
        triangles[i] := row * n + col;
        i := i + 1;
        triangles[i] := row * n + (col + 1);
        i := i + 1;
        triangles[i] := (row + 1) * n + col;
        i := i + 1;

        triangles[i] := row * n + (col + 1);
        i := i + 1;
        triangles[i] := (row + 1) * n + (col + 1);
        i := i + 1;
        triangles[i] := (row + 1) * n + col;
        i := i + 1;
      }
      assert row * (n - 1) + (n - 1) == (row + 1) * (n - 1);
      MulLeq(row + 1, n - 1, n - 1);
    }
    assert i == triangles.Length;
  }
}
