# CreateQuad grid mesh, modelled in Dafny

`CreateQuad` is a Unity component that builds a flat square grid mesh.
`sideVerts` is the number of vertices along each side (inspector range 2..1000).
`UpdateMesh` fills a vertex array of `sideVerts * sideVerts` entries.
The vertex at grid point (row, col) goes to slot `row * sideVerts + col`.
It then fills a triangle index buffer of `(sideVerts - 1)^2 * 6` entries.
Two nested loops over the cells do this, with a running write position `i`.
Each cell (row, col) gets two triangles, v(r,c) v(r,c+1) v(r+1,c) and v(r,c+1) v(r+1,c+1) v(r+1,c), where v(r,c) is the slot of grid point (r, c).
The per-frame `Update` rebuilds the mesh once each time the `regenerate` box is ticked, and clears the box as it does so.

The project has three modules:

- `Arith` (`arith.dfy`): monotonicity of products and uniqueness of Euclidean quotient and remainder. The index arithmetic below rests on these.
- `GridMesh` (`grid_mesh.dfy`): the index layout.
  - `Vertices(n)` and `Triangles(n)` are reference definitions, built grid row by grid row.
  - `BuildVertices` and `BuildTriangles` are the two loops of `UpdateMesh`, written as in the component. They fill an `array` in place and are proved to produce exactly those sequences.
  - Lemmas prove what the layout promises for every side length `n >= 2`: a slot bijection, the buffer length and triangle count, in-range indices, the six-index pattern of each cell, no degenerate triangle, a uniform winding, and the shared diagonal.
- `QuadComponent` (`create_quad.dfy`): the component as a class. Its fields are `regenerate`, `sideVerts` and the installed mesh, plus a ghost count of rebuilds. It has methods `UpdateMesh` and `Update`.

A vertex is modelled by its integer grid point `GridPoint(row, col)`. In the component, `row` drives the X coordinate and `col` drives Z. The floating-point position is not modelled.

## Model

| member | source | states |
|---|---|---|
| GridMesh.BuildVertices | Assets/SubProject1/CreateQuad.cs:54-69 | returns a freshly allocated vertex array that is exactly `Vertices(n)`: grid point (row, col) at slot `row*n+col`, for all n*n slots |
| GridMesh.VerticesAreTheGrid | Assets/SubProject1/CreateQuad.cs:54-67 | the vertex array has n*n entries; slot k holds grid point (k / n, k % n), which lies on the grid and has slot k |
| GridMesh.VertexAtSlot | Assets/SubProject1/CreateQuad.cs:67 | slot `row*n+col` of an on-grid point is inside the array and holds that point |
| GridMesh.SlotDecode | Assets/SubProject1/CreateQuad.cs:67 | the slot of an on-grid point is in [0, n*n) and dividing it by n gives row back; the remainder gives col back |
| GridMesh.SlotOnto | Assets/SubProject1/CreateQuad.cs:54-67 | every slot in [0, n*n) is the slot of some on-grid point, namely (k / n, k % n): the slot map is onto |
| GridMesh.SlotInjective | Assets/SubProject1/CreateQuad.cs:67 | two on-grid points with the same slot are equal: the slot map is one-to-one, so no vertex overwrites another |
| GridMesh.BuildTriangles | Assets/SubProject1/CreateQuad.cs:75-90 | returns a freshly allocated buffer of length `(n-1)*(n-1)*6` filled with exactly `Triangles(n)`; the body also checks that the write position `i` ends at the buffer length |
| GridMesh.TriangleCount | Assets/SubProject1/CreateQuad.cs:75-96 | the buffer has `(n-1)^2*6` entries, divisible by 3, and holds `2(n-1)^2` triangles: the count the component logs |
| GridMesh.QuadEntries | Assets/SubProject1/CreateQuad.cs:82-88 | the six entries written for cell (row, col) sit at `6*(row*(n-1)+col)` onwards, and each holds the expression the component writes there |
| GridMesh.QuadLayout | Assets/SubProject1/CreateQuad.cs:78-89 | the six-entry slice of cell (row, col) is v(r,c), v(r,c+1), v(r+1,c), v(r,c+1), v(r+1,c+1), v(r+1,c) |
| GridMesh.QuadShape | Assets/SubProject1/CreateQuad.cs:82-88 | entry j of cell (row, col) names the vertex at that cell's j-th corner of the fixed pattern |
| GridMesh.QuadNumber | Assets/SubProject1/CreateQuad.cs:78-80 | every cell number q below (n-1)^2 is `row*(n-1)+col` for in-range loop counters row and col, and for no other pair of in-range counters |
| GridMesh.PositionInQuad | Assets/SubProject1/CreateQuad.cs:75-90 | every buffer position is entry j (0..5) of some cell (row, col) visited by the loops |
| GridMesh.TriangleInQuad | Assets/SubProject1/CreateQuad.cs:82-88 | every triangle t is the first or second triangle of some cell: `3t` is the cell's offset plus 0 or 3 |
| GridMesh.EntryInBounds | Assets/SubProject1/CreateQuad.cs:54-88 | every single buffer entry is a vertex slot in [0, n*n) |
| GridMesh.TriangleIndicesInBounds | Assets/SubProject1/CreateQuad.cs:54-88 | every index in the triangle buffer lies in [0, n*n), so it names an existing vertex |
| GridMesh.CellWinding | Assets/SubProject1/CreateQuad.cs:82-88 | both corner triples of the six-index pattern have the same signed orientation (-1) in the (row, col) plane |
| GridMesh.TriangleWinding | Assets/SubProject1/CreateQuad.cs:82-88 | the three indices of every triangle name vertices whose orientation in the grid plane is -1: all triangles wind the same way |
| GridMesh.NoDegenerateTriangle | Assets/SubProject1/CreateQuad.cs:82-88 | the three indices of every triangle are pairwise distinct |
| GridMesh.SharedDiagonal | Assets/SubProject1/CreateQuad.cs:82-88 | the index sets of a cell's two triangles intersect in exactly the diagonal {v(r,c+1), v(r+1,c)} |
| GridMesh.FitsInt32 | Assets/SubProject1/CreateQuad.cs:19-20 | for sideVerts in the inspector range [2, 1000], the vertex count and the buffer length both fit a 32-bit signed int |
| GridMesh.Int32Overflow | Assets/SubProject1/CreateQuad.cs:54-75 | the buffer length `(n-1)*(n-1)*6` fits a 32-bit int at 18919 and exceeds it from 18920 on; the vertex count `n*n` fits at 46340 and exceeds it from 46341 on |
| QuadComponent.GridMeshOf | Assets/SubProject1/CreateQuad.cs:48-91 | the built mesh has n*n vertices and `(n-1)^2*6` indices, forming `2(n-1)^2` whole triangles, and every index names one of its vertices |
| QuadComponent.CreateQuad.constructor | Assets/SubProject1/CreateQuad.cs:17-20 | `regenerate` starts false, `sideVerts` starts at 2, and no mesh is installed yet |
| QuadComponent.CreateQuad.UpdateMesh | Assets/SubProject1/CreateQuad.cs:48-103 | keeps `Valid()`, installs the mesh of `GridMeshOf(sideVerts)` built by the two loops, counts one rebuild, and leaves `regenerate` and `sideVerts` unchanged |
| QuadComponent.CreateQuad.Update | Assets/SubProject1/CreateQuad.cs:33-40 | keeps `Valid()`; with `regenerate` set: clears it and rebuilds exactly once. Otherwise the mesh and the rebuild count are unchanged. The flag is clear afterwards either way, so the next frame rebuilds nothing |

## Left out

- Vertex positions (`baseX`, `baseZ`, `step`, `position.y`, `sideLength`, `scale`): floating point. A vertex is its grid point; row drives X and col drives Z.
- The Unity `Mesh` object: `indexFormat`, `RecalculateBounds`, `RecalculateNormals` and `meshFilter.mesh`. These are engine calls. Installing a mesh is modelled as assigning the `mesh` field.
- `Debug.Log` output: I/O. The triangle count it prints is proved by `GridMesh.TriangleCount`.
- `Start`: engine glue. It captures the transform position, sets the material and mesh filter, and calls `UpdateMesh`, which is modelled.
- `OnWillRenderObject` and `UpdateMaterial`: engine glue that pushes the light direction into the material.
- `sideVerts` outside [2, 1000]: `UpdateMesh` and `Update` require the inspector range. The layout lemmas and the two fill methods need only `n >= 2`.
  - Below the range the component misbehaves: 0 gives a 6-entry buffer of zeros over an empty vertex array, and 1 divides the side length by zero.
  - Above the range, the model's integers are unbounded, but the component's are 32-bit. From 18920 the triangle buffer length overflows, and from 46341 the vertex count does too (`GridMesh.Int32Overflow`).
- The per-frame calling of `Update` by the engine, and edits to `regenerate` and `sideVerts` from the inspector: these happen outside the component.
- `Assets/PostEffects/PostProcessingCamera.cs` is not part of this model.
