# Heightmap to OBJ — a Dafny model of the mesh generator

Hightmap-to-OBJ turns a grayscale heightmap image into a Wavefront-OBJ
style mesh. Each pixel becomes one vertex. Its x and z come from the
pixel's column and row, each offset by half the image's width or height.
For a positive scale, x runs from −W/2·scale to (W/2 − 1)·scale and z
from −H/2·scale to (H/2 − 1)·scale. Its y is the pixel's brightness,
normalised to [0, 1] and multiplied by the maximum height. All three
coordinates are then multiplied by the scale. Each interior
grid cell becomes one quad face, written with the 1-based vertex indices
of the OBJ format. The file is a five-line comment header, a blank line,
the `v` lines and then the `f` lines. A run first checks that both an
input and an output path were given. It ends with a summary of the vertex
and face counts.

This project models that algorithm, the body of
`HeightmapConverterApp.convert`, and proves its properties:

- `rowmajor.dfy` (`RowMajor`): row-major cell numbering and its inverse.
- `heightmap.dfy` (`Heightmap`): the decoded image as a grid of 8-bit samples.
- `vertices.dfy` (`Geometry`): vertex positions over exact reals, and the
  program's nested vertex loop.
- `faces.dfy` (`Topology`): quad faces over natural numbers, and the
  program's nested face loop.
- `mesh.dfy` (`Mesher`): the mesh as a whole, and how face indices meet
  vertex positions.
- `obj.dfy` (`Obj`): the written file as a sequence of line records, with
  a reader that recovers the mesh from them.
- `convert.dfy` (`Converter`): path validation, the whole run, and the
  summary.
- `examples.dfy` (`Examples`): concrete runs worked out in full.

Each operation is given two ways. A reference definition is indexed by
position: vertex k is pixel (k % W, k / W), and face k is cell
(k % (W-1), k / (W-1)). The program's nested loops are methods
(`EmitVertices`, `EmitFaces`), and their loop invariants prove that the
loops build exactly the reference lists. The writer has a reader as its
partner, and the round trip is proved. Everything is free of side effects:
the functions and the two loop methods alike, so equal inputs give equal
output.

The program reads the grayscale image as 8-bit values and divides them by
255 itself, so the model's samples are natural numbers up to 255. The face
count it reports is (W−1)·(H−1), which is never negative because a decoded
image has at least one pixel each way.

## Model

| member | source | states |
|---|---|---|
| Converter.Validate | HIGHTMAP2OBJ.py:99-105 | an empty input path is rejected as missing input whatever the output path; a present input with an empty output path is rejected as missing output; conversion proceeds exactly when both are non-empty |
| Converter.Convert | HIGHTMAP2OBJ.py:99-160 | a missing path stops the run with the matching error and nothing written; otherwise the file has exactly 6 + W·H + (W−1)·(H−1) lines: the header naming the input image, its dimensions, scale and maximum height, then on line 6 + k the vertex of pixel k in row-major order, then on line 6 + W·H + k the face of interior cell k in row-major order; it reads back as exactly the generated mesh, and the summary's vertex and face counts equal the numbers of `v` and `f` lines written, with the output path |
| Converter.Summarise | HIGHTMAP2OBJ.py:157-160 | the reported vertex count is W·H, one per pixel; the reported face count is the length of the face list; it is 0 exactly for a one-pixel-wide or one-pixel-high image; there is at least one vertex and always fewer faces than vertices; the report names the output path |
| Heightmap.Grid.Sample | HIGHTMAP2OBJ.py:139 | the sample read at pixel (col, row) of a valid image is an 8-bit value, at most 255 |
| Geometry.VertexAt | HIGHTMAP2OBJ.py:138-140 | with a non-zero scale the column and the row can be read back from x and z, and with a non-zero maxHeight·scale the sample from y: the position loses nothing |
| Geometry.EmitVertices | HIGHTMAP2OBJ.py:135-141 | the row-outer, column-inner loop emits exactly W·H vertices, and vertex k is the vertex of pixel (k % W, k / W) with that pixel's sample |
| Geometry.Normalise | HIGHTMAP2OBJ.py:119 | an 8-bit sample divided by 255 lies in [0, 1]; it is 0 exactly for black and 1 exactly for white |
| Geometry.NormaliseMono | HIGHTMAP2OBJ.py:119 | a darker sample never normalises to a larger value than a brighter one |
| Geometry.VertexOfPixel | HIGHTMAP2OBJ.py:135-140 | the vertex of pixel (col, row) sits at 0-based position row·W + col, with x = (col − W/2)·scale, y = (p/255)·maxHeight·scale, z = (row − H/2)·scale |
| Geometry.VertexAtInjective | HIGHTMAP2OBJ.py:138-140 | x is determined by the column, z by the row and y by the sample; with a non-zero scale (for y, a non-zero maxHeight·scale) equal coordinates imply equal column, row or sample |
| Geometry.NeighbourSteps | HIGHTMAP2OBJ.py:138-140 | the right-hand neighbour of a pixel is exactly `scale` further in x, and the pixel below is exactly `scale` further in z |
| Geometry.CoordinateDependence | HIGHTMAP2OBJ.py:138-140 | in the vertex list, vertices of the same column share x, of the same row share z, of equal samples share y; with non-zero factors the converses hold |
| Geometry.ZeroScaleCollapses | HIGHTMAP2OBJ.py:138-140 | with scale 0 every vertex is the origin, whatever the samples and maximum height |
| Geometry.VertexAtHeight | HIGHTMAP2OBJ.py:119-139 | with maxHeight·scale ≥ 0 a height lies in [0, maxHeight·scale], is 0 for black and the full factor for white, and does not decrease as the sample grows |
| Geometry.HeightRange | HIGHTMAP2OBJ.py:119-139 | the same bounds, endpoints and monotonicity for the heights in the vertex list |
| Geometry.VerticesDetermineHeightmap | HIGHTMAP2OBJ.py:119-140 | with non-zero scale the column and row of each vertex can be read back from its x and z, and with non-zero maximum height its sample from its y |
| Topology.CellFace | HIGHTMAP2OBJ.py:149-152 | for a cell with a right neighbour, v2 = v1 + 1, v4 = v1 + W, v3 = v4 + 1, and read back through the row-major numbering the corners are pixels (x, y), (x+1, y), (x+1, y+1), (x, y+1) |
| Topology.EmitFaces | HIGHTMAP2OBJ.py:146-155 | the row-outer, column-inner loop over interior cells emits exactly (W−1)·(H−1) faces, and face k is the quad of cell (k % (W−1), k / (W−1)) |
| Topology.NoFacesExactlyWhenDegenerate | HIGHTMAP2OBJ.py:146-147 | there are no faces exactly when the image is one pixel wide or one pixel high |
| Topology.FaceShape | HIGHTMAP2OBJ.py:149-152 | every index of every face lies in [1, W·H], the four indices are pairwise distinct, and v2 = v1 + 1, v4 = v1 + W, v3 = v4 + 1 |
| Topology.FaceCorners | HIGHTMAP2OBJ.py:149-152 | read back through the row-major numbering, the corners of the face of cell (x, y) are the pixels (x, y), (x+1, y), (x+1, y+1), (x, y+1) in that order |
| Topology.FacesInRowMajorOrder | HIGHTMAP2OBJ.py:146-149 | a later face belongs to a later row, or to a later column in the same row, and its first index v1 is strictly larger |
| Topology.OneFacePerCell | HIGHTMAP2OBJ.py:146-152 | each interior cell (x, y) has its quad at position y·(W−1) + x and at no other position |
| Mesher.GenerateMesh | HIGHTMAP2OBJ.py:135-155 | whatever the samples and parameters, every index of every face names an emitted vertex |
| Mesher.FacesInRange | HIGHTMAP2OBJ.py:146-152 | all face indices of a W×H grid lie in [1, W·H] |
| Mesher.DegenerateImage | HIGHTMAP2OBJ.py:135-147 | a one-pixel-wide or one-pixel-high image still yields all W·H (at least one) vertices but no face |
| Mesher.FaceVertices | HIGHTMAP2OBJ.py:135-152 | the four vertices a face names are the vertices of the four pixels around its cell, each with its own sample |
| Mesher.FaceSpansOneCell | HIGHTMAP2OBJ.py:138-152 | in the x-z plane every face is the square of side `scale` over its cell: v1→v2 and v4→v3 step by `scale` in x, v1→v4 and v2→v3 step by `scale` in z |
| Obj.Header | HIGHTMAP2OBJ.py:126-130 | the header is six lines: five comment lines whose notes read back, in order, as the title, the input path, the image's width and height, the scale and the maximum height, then one blank line; it contributes no vertex and no face |
| Obj.ReadNotes | HIGHTMAP2OBJ.py:126-130 | comment and blank lines contribute no vertex and no face |
| Obj.ReadVertexLines | HIGHTMAP2OBJ.py:141 | the `v` lines read back as exactly the vertices written, in order, and contain no face and no comment |
| Obj.ReadFaceLines | HIGHTMAP2OBJ.py:155 | the `f` lines read back as exactly the faces written, in order, and contain no vertex and no comment |
| Obj.ReadComments | HIGHTMAP2OBJ.py:126-130 | comment lines, optionally closed by one blank line, read back as exactly the notes they carry, in order |
| Obj.ReadFile | HIGHTMAP2OBJ.py:124-155 | for a six-line header followed by the `v` lines and the `f` lines: vertex k sits on line 6 + k and face k on line 6 + (number of vertices) + k; the file's vertices, faces and notes are those of the header followed by the written ones |
| Obj.Serialize | HIGHTMAP2OBJ.py:124-155 | the file is the six header lines, then vertex k on line 6 + k, then face k on line 6 + (number of vertices) + k, and nothing else; reading it back gives the mesh that was written, nothing reordered, dropped or duplicated, and its only comments are the five header notes |
| Examples.WhiteSquare | HIGHTMAP2OBJ.py:135-155 | a 2×2 all-white image at scale 1 and maximum height 1 gives the vertices (−1,1,−1), (0,1,−1), (−1,1,0), (0,1,0) and the single face 1 2 4 3 |
| Examples.WhiteSquareLines | HIGHTMAP2OBJ.py:124-155 | the eleven line records written for that mesh: header, four `v` lines, one `f` line |
| Examples.WhiteSquareFile | HIGHTMAP2OBJ.py:124-160 | the full line sequence and summary (4 vertices, 1 face) of that run |
| Examples.Strip | HIGHTMAP2OBJ.py:135-147 | a 3×1 image gives three vertices and no face |
| Examples.MissingPaths | HIGHTMAP2OBJ.py:99-105 | an empty input path wins over an empty output path; an empty output path is reported once an input path is present |

## Left out

- The Tkinter window, widgets, file dialogs, sliders and main loop
  (HIGHTMAP2OBJ.py:7-91, 170-173) are presentation only. The model takes
  the two paths, the scale and the maximum height as plain arguments.
- Image decoding with PIL and numpy (HIGHTMAP2OBJ.py:112-114) is a foreign
  library. Its output is the `Grid` argument: width and height of at least
  one pixel, one sample in 0..255 per pixel. Zero-sized images are outside
  the model because a decoded image file always has at least one pixel.
- The decode failure and the write failure are not modelled. In the
  program they surface through the catch-all exception handler
  (HIGHTMAP2OBJ.py:165-168), which only shows a message.
- File I/O (HIGHTMAP2OBJ.py:124) is not modelled. The written file is the
  returned sequence of line records, and partial writes are not modelled.
- Number formatting is not modelled: the four-decimal `v` coordinates
  (HIGHTMAP2OBJ.py:141) and the printed scale and maximum height in the
  header (HIGHTMAP2OBJ.py:129-130). A record carries the value, not its
  text.
- Floating point is not modelled. In the program x and z are 64-bit
  floats (HIGHTMAP2OBJ.py:138, 140); the normalised heights are 32-bit
  floats (HIGHTMAP2OBJ.py:114-122), and y, a 32-bit sample times a
  Python float (HIGHTMAP2OBJ.py:139), has the width the installed numpy
  version's promotion rules give it. The model uses exact reals and
  claims nothing about rounding.
- Status messages and message boxes (HIGHTMAP2OBJ.py:100, 104, 108-116,
  132, 143, 162-163) are advisory side effects. The summary's contents are
  modelled; its text is not.
- The output file name suggestion (HIGHTMAP2OBJ.py:67-68) belongs to a
  dialog handler.
- A line record stands for one text line only when the input path holds
  no line break. The program writes the path into the second header line
  unchanged (HIGHTMAP2OBJ.py:127), so a path with a line break splits that
  line and moves every later line down; the model keeps the path inside
  one record.
- The slider range 0.1..10 for the scale and the maximum height is not
  enforced by the conversion, so the model accepts any real value.
