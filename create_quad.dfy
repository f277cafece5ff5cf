/**
 * The CreateQuad component: it holds the inspector settings of a flat
 * square grid mesh, rebuilds the mesh from them, and rebuilds it once more
 * each time the `regenerate` box is ticked.
 */
module QuadComponent {
  import opened GridMesh

  datatype Option<T> = None | Some(value: T)

  /** The vertex array and the triangle index buffer handed to the renderer. */
  datatype MeshData = MeshData(vertices: seq<GridPoint>, triangles: seq<int>)

  /** Whole triangles only, and every index names a vertex of the mesh. */
  predicate WellFormed(m: MeshData) {
    |m.triangles| % 3 == 0 &&
    forall k :: 0 <= k < |m.triangles| ==> 0 <= m.triangles[k] < |m.vertices|
  }

  /** The mesh UpdateMesh builds for `n` vertices per side. */
  function GridMeshOf(n: int): (m: MeshData)
    requires GridSide(n)
    ensures |m.vertices| == VertexCount(n)
    ensures |m.triangles| == TriangleBufferLength(n)
    ensures |m.triangles| / 3 == 2 * QuadCount(n)
    ensures WellFormed(m)
  {
    VerticesAreTheGrid(n);
    TriangleCount(n);
    TriangleIndicesInBounds(n);
    MeshData(Vertices(n), Triangles(n))
  }

  class CreateQuad {
    /** Inspector flag: rebuild the mesh on the next frame. */
    var regenerate: bool
    /** Inspector setting: vertices along each side of the grid. */
    var sideVerts: int
    /** The mesh last given to the mesh filter, if any. */
    var mesh: Option<MeshData>
    /** How many times the mesh has been rebuilt. */
    ghost var rebuilds: nat

    ghost predicate Valid()
      reads this
    {
      ValidSideVerts(sideVerts)
    }

    /** The component with its field initialisers and no mesh yet. */
    constructor()
      ensures Valid()
      ensures !regenerate && sideVerts == MinSideVerts
      ensures mesh == None && rebuilds == 0
    {
      regenerate := false;
      sideVerts := MinSideVerts;
      mesh := None;
      rebuilds := 0;
    }

    /** Builds the vertex array and the triangle buffer and installs them as the mesh. */
    method UpdateMesh()
      requires Valid()
      modifies this
      ensures Valid()
      ensures regenerate == old(regenerate) && sideVerts == old(sideVerts)
      ensures mesh == Some(GridMeshOf(sideVerts))
      ensures rebuilds == old(rebuilds) + 1
    {
      var vertices := BuildVertices(sideVerts);
      var triangles := BuildTriangles(sideVerts);
      mesh := Some(MeshData(vertices[..], triangles[..]));
      rebuilds := rebuilds + 1;
    }

    /**
     * The per-frame hook. A ticked `regenerate` is cleared and the mesh is
     * rebuilt exactly once; otherwise nothing changes. Either way the flag
     * is clear afterwards, so the following frame rebuilds nothing.
     */
    method Update()
      requires Valid()
      modifies this
      ensures Valid()
      ensures !regenerate
      ensures sideVerts == old(sideVerts)
      ensures old(regenerate) ==> mesh == Some(GridMeshOf(sideVerts)) && rebuilds == old(rebuilds) + 1
      ensures !old(regenerate) ==> mesh == old(mesh) && rebuilds == old(rebuilds)
    {
      if regenerate {
        regenerate := false;
        UpdateMesh();
      }
    }
  }
}
