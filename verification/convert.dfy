/** One conversion run: check the two paths, then build the mesh of the
    decoded heightmap, write it as OBJ records and report the counts.
    The image decoder and the file system are outside the model: the grid
    is the decoder's output for the input path, and the written file is
    the returned sequence of line records. */
module Converter {
  import opened RowMajor
  import opened Heightmap
  import opened Geometry
  import opened Topology
  import opened Mesher
  import opened Obj

  /** Why a conversion does not start. */
  datatype ConvertError = MissingInput | MissingOutput

  datatype Check = Proceed | Reject(error: ConvertError)

  /** The path checks, in the program's order: the input path first. */
  function Validate(inPath: string, outPath: string): (c: Check)
    ensures c == Reject(MissingInput) <==> inPath == []
    ensures c == Reject(MissingOutput) <==> inPath != [] && outPath == []
    ensures c == Proceed <==> inPath != [] && outPath != []
  {
    if inPath == [] then Reject(MissingInput)
    else if outPath == [] then Reject(MissingOutput)
    else Proceed
  }

  /** The closing report, with the counts computed from the image size. */
  datatype Summary = Summary(vertexCount: nat, faceCount: nat, savedTo: string)

  /** The summary counts one vertex per pixel and one face per interior
      cell: the lengths of the two lists the run writes. There is always a
      vertex, fewer faces than vertices, and no face exactly when the image
      is one pixel wide or high. */
  function Summarise(width: nat, height: nat, outPath: string): (s: Summary)
    requires 1 <= width && 1 <= height
    ensures s.vertexCount == width * height
    ensures s.faceCount == |Faces(width, height)|
    ensures s.faceCount == 0 <==> width == 1 || height == 1
    ensures 1 <= s.vertexCount && s.faceCount < s.vertexCount
    ensures s.savedTo == outPath
  {
    NoFacesExactlyWhenDegenerate(width, height);
    MulLeMono(1, width, height);
    MulLeMono(width - 1, width, height - 1);
    Summary(width * height, (width - 1) * (height - 1), outPath)
  }

  datatype Conversion = Conversion(lines: seq<Line>, summary: Summary)

  datatype Result = Ok(value: Conversion) | Err(error: ConvertError)

  /** A whole run. A missing path stops it before anything is written;
      otherwise the file is the header naming the input image and its size,
      then the vertex of every pixel in row-major order, then the face of
      every interior cell in row-major order, and nothing else. It reads
      back as exactly the mesh of the heightmap, and the summary's counts
      are the numbers of `v` and `f` lines actually written. */
  function Convert(inPath: string, outPath: string, g: Grid, scale: real, maxHeight: real): (r: Result)
    requires g.Valid()
    ensures inPath == [] ==> r == Err(MissingInput)
    ensures inPath != [] && outPath == [] ==> r == Err(MissingOutput)
    ensures r.Ok? <==> inPath != [] && outPath != []
    ensures r.Ok? ==>
      && Parse(r.value.lines) == GenerateMesh(g, scale, maxHeight)
      // Implied by the exact length below; stated first so that the indexing
      // that follows is well formed without reasoning about (W-1)*(H-1) >= 0.
      && HeaderLength + g.width * g.height <= |r.value.lines|
      && |r.value.lines| == HeaderLength + g.width * g.height + (g.width - 1) * (g.height - 1)
      && r.value.lines[..HeaderLength] == Header(inPath, g.width, g.height, scale, maxHeight)
      && (forall k :: 0 <= k < g.width * g.height ==>
            r.value.lines[HeaderLength + k] == V(Vertices(g, scale, maxHeight)[k]))
      && (forall k :: 0 <= k < (g.width - 1) * (g.height - 1) ==>
            r.value.lines[HeaderLength + g.width * g.height + k] == F(Faces(g.width, g.height)[k]))
      && r.value.summary.vertexCount == |VerticesOf(r.value.lines)|
      && r.value.summary.faceCount == |FacesOf(r.value.lines)|
      && r.value.summary.savedTo == outPath
  {
    match Validate(inPath, outPath)
    case Reject(e) => Err(e)
    case Proceed =>
      var m := GenerateMesh(g, scale, maxHeight);
      var lines := Serialize(inPath, g.width, g.height, scale, maxHeight, m);
      assert |m.vertices| == g.width * g.height;
      Ok(Conversion(lines, Summarise(g.width, g.height, outPath)))
  }
}
