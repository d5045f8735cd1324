/** The mesh as a whole: the vertex list and the face list of one image,
    and the facts that tie the faces' indices to the vertices' positions. */
module Mesher {
  import opened RowMajor
  import opened Heightmap
  import opened Geometry
  import opened Topology

  datatype Mesh = Mesh(vertices: seq<Vertex>, faces: seq<Face>)

  /** Every index of every face names an emitted vertex (1-based). */
  predicate WellIndexed(m: Mesh) {
    forall i :: 0 <= i < |m.faces| ==>
      && 1 <= m.faces[i].v1 <= |m.vertices|
      && 1 <= m.faces[i].v2 <= |m.vertices|
      && 1 <= m.faces[i].v3 <= |m.vertices|
      && 1 <= m.faces[i].v4 <= |m.vertices|
  }

  /** The mesh of a heightmap: vertices from the pixels, faces from the
      grid's shape. Whatever the samples and parameters, no face names a
      vertex that is not there. */
  function GenerateMesh(g: Grid, scale: real, maxHeight: real): (m: Mesh)
    requires g.Valid()
    ensures WellIndexed(m)
  {
    FacesInRange(g.width, g.height);
    Mesh(Vertices(g, scale, maxHeight), Faces(g.width, g.height))
  }

  /** All face indices of a `width` x `height` grid lie in [1, width*height]. */
  lemma FacesInRange(width: nat, height: nat)
    requires 1 <= width && 1 <= height
    ensures forall i :: 0 <= i < |Faces(width, height)| ==>
      && 1 <= Faces(width, height)[i].v1 <= width * height
      && 1 <= Faces(width, height)[i].v2 <= width * height
      && 1 <= Faces(width, height)[i].v3 <= width * height
      && 1 <= Faces(width, height)[i].v4 <= width * height
  {
    forall i | 0 <= i < |Faces(width, height)|
      ensures 1 <= Faces(width, height)[i].v1 <= width * height
      ensures 1 <= Faces(width, height)[i].v2 <= width * height
      ensures 1 <= Faces(width, height)[i].v3 <= width * height
      ensures 1 <= Faces(width, height)[i].v4 <= width * height
    {
      FaceShape(width, height, i);
    }
  }

  /** A one-pixel-wide or one-pixel-high image still yields all its
      vertices but no face. */
  lemma DegenerateImage(g: Grid, scale: real, maxHeight: real)
    requires g.Valid() && (g.width == 1 || g.height == 1)
    ensures var m := GenerateMesh(g, scale, maxHeight);
      |m.faces| == 0 && |m.vertices| == g.width * g.height && 1 <= |m.vertices|
  {
    NoFacesExactlyWhenDegenerate(g.width, g.height);
  }

  /** The face of interior cell (x, y) sits at position
      `y * (width - 1) + x`, and the four vertices it names are those of the
      pixels (x, y), (x+1, y), (x+1, y+1) and (x, y+1), with their samples. */
  lemma FaceVertices(g: Grid, scale: real, maxHeight: real, x: nat, y: nat)
    requires g.Valid() && x < g.width - 1 && y < g.height - 1
    ensures var m := GenerateMesh(g, scale, maxHeight);
      var k := Flat(g.width - 1, g.height - 1, x, y);
      var f := m.faces[k];
      && 1 <= f.v1 <= |m.vertices| && 1 <= f.v2 <= |m.vertices|
      && 1 <= f.v3 <= |m.vertices| && 1 <= f.v4 <= |m.vertices|
      && m.vertices[f.v1 - 1] == VertexAt(g.width, g.height, x, y, g.Sample(x, y), scale, maxHeight)
      && m.vertices[f.v2 - 1] == VertexAt(g.width, g.height, x + 1, y, g.Sample(x + 1, y), scale, maxHeight)
      && m.vertices[f.v3 - 1] == VertexAt(g.width, g.height, x + 1, y + 1, g.Sample(x + 1, y + 1), scale, maxHeight)
      && m.vertices[f.v4 - 1] == VertexAt(g.width, g.height, x, y + 1, g.Sample(x, y + 1), scale, maxHeight)
  {
    var f := Faces(g.width, g.height)[Flat(g.width - 1, g.height - 1, x, y)];
    assert f == CellFace(g.width, x, y);
    assert f.v1 - 1 == Flat(g.width, g.height, x, y);
    assert f.v2 - 1 == Flat(g.width, g.height, x + 1, y);
    assert f.v3 - 1 == Flat(g.width, g.height, x + 1, y + 1);
    assert f.v4 - 1 == Flat(g.width, g.height, x, y + 1);
    VertexOfPixel(g, scale, maxHeight, x, y);
    VertexOfPixel(g, scale, maxHeight, x + 1, y);
    VertexOfPixel(g, scale, maxHeight, x + 1, y + 1);
    VertexOfPixel(g, scale, maxHeight, x, y + 1);
  }

  /** In the x-z plane every face is the square of side `scale` over its
      cell: v1-v2 and v4-v3 are one step apart in x, v1-v4 and v2-v3 one
      step apart in z. */
  lemma FaceSpansOneCell(g: Grid, scale: real, maxHeight: real, x: nat, y: nat)
    requires g.Valid() && x < g.width - 1 && y < g.height - 1
    ensures var m := GenerateMesh(g, scale, maxHeight);
      var f := m.faces[Flat(g.width - 1, g.height - 1, x, y)];
      && 1 <= f.v1 <= |m.vertices| && 1 <= f.v2 <= |m.vertices|
      && 1 <= f.v3 <= |m.vertices| && 1 <= f.v4 <= |m.vertices|
      && m.vertices[f.v2 - 1].x - m.vertices[f.v1 - 1].x == scale
      && m.vertices[f.v3 - 1].x == m.vertices[f.v2 - 1].x
      && m.vertices[f.v4 - 1].x == m.vertices[f.v1 - 1].x
      && m.vertices[f.v4 - 1].z - m.vertices[f.v1 - 1].z == scale
      && m.vertices[f.v3 - 1].z == m.vertices[f.v4 - 1].z
      && m.vertices[f.v2 - 1].z == m.vertices[f.v1 - 1].z
  {
    FaceVertices(g, scale, maxHeight, x, y);
    var w, h := g.width, g.height;
    NeighbourSteps(w, h, x, y, g.Sample(x + 1, y), g.Sample(x, y), scale, maxHeight);
    NeighbourSteps(w, h, x, y + 1, g.Sample(x + 1, y + 1), g.Sample(x, y + 1), scale, maxHeight);
    NeighbourSteps(w, h, x, y, g.Sample(x, y + 1), g.Sample(x, y), scale, maxHeight);
    NeighbourSteps(w, h, x + 1, y, g.Sample(x + 1, y + 1), g.Sample(x + 1, y), scale, maxHeight);
    VertexAtInjective(w, h, x + 1, y, g.Sample(x + 1, y), x + 1, y + 1, g.Sample(x + 1, y + 1), scale, maxHeight);
    VertexAtInjective(w, h, x, y, g.Sample(x, y), x, y + 1, g.Sample(x, y + 1), scale, maxHeight);
    VertexAtInjective(w, h, x, y + 1, g.Sample(x, y + 1), x + 1, y + 1, g.Sample(x + 1, y + 1), scale, maxHeight);
    VertexAtInjective(w, h, x, y, g.Sample(x, y), x + 1, y, g.Sample(x + 1, y), scale, maxHeight);
  }
}
