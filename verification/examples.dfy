/** Concrete runs worked out in full. */
module Examples {
  import opened Heightmap
  import opened Geometry
  import opened Topology
  import opened Mesher
  import opened Obj
  import opened Converter

  /** A 2x2 all-white image at scale 1 and maximum height 1: four vertices
      on the square [-1, 0] x [-1, 0] at height 1, and the single quad 1 2 4 3. */
  lemma WhiteSquare()
    ensures var g := Grid(2, 2, [255, 255, 255, 255]);
      && g.Valid()
      && GenerateMesh(g, 1.0, 1.0)
         == Mesh([Vertex(-1.0, 1.0, -1.0), Vertex(0.0, 1.0, -1.0),
                  Vertex(-1.0, 1.0, 0.0), Vertex(0.0, 1.0, 0.0)],
                 [Face(1, 2, 4, 3)])
  {
    var g := Grid(2, 2, [255, 255, 255, 255]);
    var vs := Vertices(g, 1.0, 1.0);
    assert |vs| == 4;
    assert vs[0] == Vertex(-1.0, 1.0, -1.0);
    assert vs[1] == Vertex(0.0, 1.0, -1.0);
    assert vs[2] == Vertex(-1.0, 1.0, 0.0);
    assert vs[3] == Vertex(0.0, 1.0, 0.0);
    assert Faces(2, 2)[0] == Face(1, 2, 4, 3);
  }

  /** The lines written for the mesh of the 2x2 white image. */
  lemma WhiteSquareLines()
    ensures Serialize("white.png", 2, 2, 1.0, 1.0,
                      Mesh([Vertex(-1.0, 1.0, -1.0), Vertex(0.0, 1.0, -1.0),
                            Vertex(-1.0, 1.0, 0.0), Vertex(0.0, 1.0, 0.0)],
                           [Face(1, 2, 4, 3)]))
      == [Comment(Title), Comment(OriginalImage("white.png")), Comment(Dimensions(2, 2)),
          Comment(ScaleNote(1.0)), Comment(MaxHeightNote(1.0)), Blank,
          V(Vertex(-1.0, 1.0, -1.0)), V(Vertex(0.0, 1.0, -1.0)),
          V(Vertex(-1.0, 1.0, 0.0)), V(Vertex(0.0, 1.0, 0.0)),
          F(Face(1, 2, 4, 3))]
  {
    var vs := [Vertex(-1.0, 1.0, -1.0), Vertex(0.0, 1.0, -1.0),
               Vertex(-1.0, 1.0, 0.0), Vertex(0.0, 1.0, 0.0)];
    assert VertexLines(vs) == [V(vs[0]), V(vs[1]), V(vs[2]), V(vs[3])];
    assert FaceLines([Face(1, 2, 4, 3)]) == [F(Face(1, 2, 4, 3))];
  }

  /** The whole file and report for the 2x2 white image. */
  lemma WhiteSquareFile()
    ensures Convert("white.png", "white.obj", Grid(2, 2, [255, 255, 255, 255]), 1.0, 1.0)
      == Ok(Conversion(
           [Comment(Title), Comment(OriginalImage("white.png")), Comment(Dimensions(2, 2)),
            Comment(ScaleNote(1.0)), Comment(MaxHeightNote(1.0)), Blank,
            V(Vertex(-1.0, 1.0, -1.0)), V(Vertex(0.0, 1.0, -1.0)),
            V(Vertex(-1.0, 1.0, 0.0)), V(Vertex(0.0, 1.0, 0.0)),
            F(Face(1, 2, 4, 3))],
           Summary(4, 1, "white.obj")))
  {
    var g := Grid(2, 2, [255, 255, 255, 255]);
    WhiteSquare();
    WhiteSquareLines();
    assert Summarise(2, 2, "white.obj") == Summary(4, 1, "white.obj");
    assert Validate("white.png", "white.obj") == Proceed;
  }

  /** A 3x1 strip: three vertices, black to white, and no face at all. */
  lemma Strip()
    ensures var g := Grid(3, 1, [0, 51, 255]);
      && g.Valid()
      && GenerateMesh(g, 2.0, 1.0)
         == Mesh([Vertex(-3.0, 0.0, -1.0), Vertex(-1.0, 0.4, -1.0), Vertex(1.0, 2.0, -1.0)], [])
  {
    var g := Grid(3, 1, [0, 51, 255]);
    var vs := Vertices(g, 2.0, 1.0);
    assert |vs| == 3;
    assert vs[0] == Vertex(-3.0, 0.0, -1.0);
    assert vs[1] == Vertex(-1.0, 0.4, -1.0);
    assert vs[2] == Vertex(1.0, 2.0, -1.0);
  }

  /** An empty input path is reported whatever the output path, and an
      empty output path only once an input path is given. */
  lemma MissingPaths(g: Grid)
    requires g.Valid()
    ensures Convert("", "", g, 1.0, 1.0) == Err(MissingInput)
    ensures Convert("", "out.obj", g, 1.0, 1.0) == Err(MissingInput)
    ensures Convert("in.png", "", g, 1.0, 1.0) == Err(MissingOutput)
  {
  }
}
