/** Quad-face topology: one four-sided face per interior grid cell, written
    with the 1-based vertex indices of the OBJ format. The topology depends
    only on the image's width and height, never on the samples. */
module Topology {
  import opened RowMajor

  /** A quad by its four 1-based vertex indices, in emission order. */
  datatype Face = Face(v1: nat, v2: nat, v3: nat, v4: nat)

  /** The pixel (column, row) that a 1-based vertex index names in a grid
      `width` pixels wide: the inverse of the row-major numbering. */
  function PixelOf(width: nat, v: nat): (cell: (nat, nat))
    requires 0 < width && 1 <= v
  {
    ((v - 1) % width, (v - 1) / width)
  }

  /** The quad of cell (x, y) in a grid `width` pixels wide: its corners are
      pixel (x, y), its right neighbour, the pixel diagonally below-right
      and the pixel below, as 1-based indices into the row-major vertex list.
      The cell has a right neighbour, as every interior cell does. */
  function CellFace(width: nat, x: nat, y: nat): (f: Face)
    requires x + 1 < width
    ensures 1 <= f.v1 && f.v2 == f.v1 + 1 && f.v4 == f.v1 + width && f.v3 == f.v4 + 1
    ensures PixelOf(width, f.v1) == (x, y)
    ensures PixelOf(width, f.v2) == (x + 1, y)
    ensures PixelOf(width, f.v3) == (x + 1, y + 1)
    ensures PixelOf(width, f.v4) == (x, y + 1)
  {
    DivModUnique(y * width + x, width, y, x);
    DivModUnique(y * width + x + 1, width, y, x + 1);
    DivModUnique((y + 1) * width + x + 1, width, y + 1, x + 1);
    DivModUnique((y + 1) * width + x, width, y + 1, x);
    Face(y * width + x + 1,
         y * width + x + 2,
         (y + 1) * width + x + 2,
         (y + 1) * width + x + 1)
  }

  /** Reference definition of the face list: face k belongs to interior cell
      (k % (width - 1), k / (width - 1)), so cells are taken row by row. */
  function Faces(width: nat, height: nat): (fs: seq<Face>)
    requires 1 <= width && 1 <= height
  {
    seq((width - 1) * (height - 1),
        k requires 0 <= k < (width - 1) * (height - 1) =>
          CellFace(width, k % (width - 1), k / (width - 1)))
  }

  /** The program's face loop: rows 0 .. height-2 outer, columns
      0 .. width-2 inner, one quad appended per cell. It yields exactly the
      reference list. */
  method EmitFaces(width: nat, height: nat) returns (fs: seq<Face>)
    requires 1 <= width && 1 <= height
    ensures |fs| == (width - 1) * (height - 1)
    ensures fs == Faces(width, height)
  {
    ghost var all := Faces(width, height);
    fs := [];
    var y := 0;
    while y < height - 1
      invariant y <= height - 1
      invariant |fs| == y * (width - 1) <= |all|
      invariant fs == all[..|fs|]
    {
      var x := 0;
      while x < width - 1
        invariant x <= width - 1
        invariant |fs| == y * (width - 1) + x < |all| + 1
        invariant fs == all[..|fs|]
      {
        var f := CellFace(width, x, y);
        assert f == all[Flat(width - 1, height - 1, x, y)];
        fs := fs + [f];
        x := x + 1;
      }
      MulLeMono(y + 1, height - 1, width - 1);
      y := y + 1;
    }
  }

  /** A one-pixel-wide or one-pixel-high image has no faces, and every
      other image has at least one. */
  lemma NoFacesExactlyWhenDegenerate(width: nat, height: nat)
    requires 1 <= width && 1 <= height
    ensures |Faces(width, height)| == 0 <==> width == 1 || height == 1
  {
    if 1 < width && 1 < height {
      MulLeMono(1, height - 1, width - 1);
    }
  }

  /** Every face names four existing vertices (indices in [1, width*height]),
      all different, laid out as v2 = v1 + 1, v4 = v1 + width and
      v3 = v4 + 1. */
  lemma FaceShape(width: nat, height: nat, k: nat)
    requires 1 <= width && 1 <= height && k < (width - 1) * (height - 1)
    ensures var f := Faces(width, height)[k];
      && 1 <= f.v1 && f.v1 <= width * height
      && 1 <= f.v2 && f.v2 <= width * height
      && 1 <= f.v3 && f.v3 <= width * height
      && 1 <= f.v4 && f.v4 <= width * height
      && f.v2 == f.v1 + 1 && f.v4 == f.v1 + width && f.v3 == f.v4 + 1
      && f.v1 != f.v2 && f.v1 != f.v3 && f.v1 != f.v4
      && f.v2 != f.v3 && f.v2 != f.v4 && f.v3 != f.v4
  {
    Unflat(width - 1, height - 1, k);
    var x, y := k % (width - 1), k / (width - 1);
    var last := Flat(width, height, x + 1, y + 1);
    assert Faces(width, height)[k].v3 == last + 1;
  }

  /** The corners of face k, read back through the row-major numbering, are
      the pixels (x, y), (x+1, y), (x+1, y+1) and (x, y+1) of its cell: one
      consistent winding around one grid cell. */
  lemma FaceCorners(width: nat, height: nat, k: nat)
    requires 1 <= width && 1 <= height && k < (width - 1) * (height - 1)
    ensures var f := Faces(width, height)[k];
      var x, y := k % (width - 1), k / (width - 1);
      && 1 <= f.v1 && 1 <= f.v2 && 1 <= f.v3 && 1 <= f.v4
      && PixelOf(width, f.v1) == (x, y)
      && PixelOf(width, f.v2) == (x + 1, y)
      && PixelOf(width, f.v3) == (x + 1, y + 1)
      && PixelOf(width, f.v4) == (x, y + 1)
  {
    Unflat(width - 1, height - 1, k);
    var x, y := k % (width - 1), k / (width - 1);
    var f := Faces(width, height)[k];
    assert f.v1 - 1 == Flat(width, height, x, y);
    assert f.v2 - 1 == Flat(width, height, x + 1, y);
    assert f.v3 - 1 == Flat(width, height, x + 1, y + 1);
    assert f.v4 - 1 == Flat(width, height, x, y + 1);
  }

  /** Faces come in row-major cell order: a later face lies in a later row,
      or further right in the same row, and its first index is larger. */
  lemma FacesInRowMajorOrder(width: nat, height: nat, i: nat, j: nat)
    requires 1 <= width && 1 <= height && i < j < (width - 1) * (height - 1)
    ensures var n := width - 1;
      i / n < j / n || (i / n == j / n && i % n < j % n)
    ensures Faces(width, height)[i].v1 < Faces(width, height)[j].v1
  {
    Unflat(width - 1, height - 1, i);
    Unflat(width - 1, height - 1, j);
    var n := width - 1;
    DivMono(i, j, n);
    assert Faces(width, height)[i].v1 == i + i / n + 1 by {
      assert (i / n) * width == (i / n) * n + i / n;
    }
    assert Faces(width, height)[j].v1 == j + j / n + 1 by {
      assert (j / n) * width == (j / n) * n + j / n;
    }
  }

  /** Every interior cell gets exactly one face: the one at position
      `y * (width - 1) + x`, and no other position holds the same quad. */
  lemma OneFacePerCell(width: nat, height: nat, x: nat, y: nat, k: nat)
    requires 1 <= width && 1 <= height && x < width - 1 && y < height - 1
    requires k < (width - 1) * (height - 1)
    ensures Faces(width, height)[Flat(width - 1, height - 1, x, y)] == CellFace(width, x, y)
    ensures Faces(width, height)[k] == CellFace(width, x, y) <==> k == Flat(width - 1, height - 1, x, y)
  {
    var at := Flat(width - 1, height - 1, x, y);
    if Faces(width, height)[k] == CellFace(width, x, y) {
      FaceCorners(width, height, k);
      FaceCorners(width, height, at);
      Unflat(width - 1, height - 1, k);
    }
  }
}
