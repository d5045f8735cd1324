/** Vertex generation: one vertex per pixel, emitted row by row. Positions
    are exact reals; the 32-bit floats and the four-decimal text of the
    program are abstracted away. */
module Geometry {
  import opened RowMajor
  import opened Heightmap

  datatype Vertex = Vertex(x: real, y: real, z: real)

  /** Position of the vertex for pixel (col, row) of a `width` x `height`
      image whose sample is `p`: the column and row are offset by half the
      width and half the height in the x-z plane, and the normalised sample
      times `maxHeight` is the height; all three axes are multiplied by
      `scale`. With non-zero factors the position gives back the column,
      the row and the sample. */
  function VertexAt(width: nat, height: nat, col: nat, row: nat, p: nat,
                    scale: real, maxHeight: real): (v: Vertex)
    requires p <= MaxSample
    ensures scale != 0.0 ==> ColumnOf(width, scale, v.x) == col as real
    ensures scale != 0.0 ==> RowOf(height, scale, v.z) == row as real
    ensures maxHeight * scale != 0.0 ==> SampleOf(scale, maxHeight, v.y) == p as real
  {
    MulAssoc(Normalise(p), maxHeight, scale);
    Vertex((col as real - width as real / 2.0) * scale,
           Normalise(p) * maxHeight * scale,
           (row as real - height as real / 2.0) * scale)
  }

  /** Reference definition of the vertex list: vertex k belongs to pixel
      (k % width, k / width), so the pixels are visited row by row. */
  function Vertices(g: Grid, scale: real, maxHeight: real): (vs: seq<Vertex>)
    requires g.Valid()
  {
    seq(g.width * g.height,
        k requires 0 <= k < g.width * g.height =>
          VertexAt(g.width, g.height, k % g.width, k / g.width, g.samples[k], scale, maxHeight))
  }

  /** The program's vertex loop: rows outer, columns inner, one vertex
      appended per pixel. It yields exactly the reference list. */
  method EmitVertices(g: Grid, scale: real, maxHeight: real) returns (vs: seq<Vertex>)
    requires g.Valid()
    ensures |vs| == g.width * g.height
    ensures vs == Vertices(g, scale, maxHeight)
  {
    ghost var all := Vertices(g, scale, maxHeight);
    vs := [];
    var row := 0;
    while row < g.height
      invariant row <= g.height
      invariant |vs| == row * g.width <= |all|
      invariant vs == all[..|vs|]
    {
      var col := 0;
      while col < g.width
        invariant col <= g.width
        invariant |vs| == row * g.width + col < |all| + 1
        invariant vs == all[..|vs|]
      {
        var v := VertexAt(g.width, g.height, col, row, g.Sample(col, row), scale, maxHeight);
        assert v == all[Flat(g.width, g.height, col, row)];
        vs := vs + [v];
        col := col + 1;
      }
      MulLeMono(row + 1, g.height, g.width);
      row := row + 1;
    }
  }

  /** The vertex of pixel (col, row) sits at 0-based position
      `row * width + col`, the position the 1-based face indices name. */
  lemma VertexOfPixel(g: Grid, scale: real, maxHeight: real, col: nat, row: nat)
    requires g.Valid() && col < g.width && row < g.height
    ensures Flat(g.width, g.height, col, row) < |Vertices(g, scale, maxHeight)|
    ensures Vertices(g, scale, maxHeight)[Flat(g.width, g.height, col, row)]
            == VertexAt(g.width, g.height, col, row, g.Sample(col, row), scale, maxHeight)
  {
  }

  /** An 8-bit sample normalised to [0, 1]: 0 only for black and 1 only
      for white. */
  function Normalise(p: nat): (h: real)
    requires p <= MaxSample
    ensures 0.0 <= h <= 1.0
    ensures p == 0 <==> h == 0.0
    ensures p == MaxSample <==> h == 1.0
  {
    p as real / MaxSample as real
  }

  /** A darker sample never normalises to a larger value than a brighter one. */
  lemma NormaliseMono(p: nat, q: nat)
    requires p <= q <= MaxSample
    ensures Normalise(p) <= Normalise(q)
  {
    assert Normalise(q) - Normalise(p) == (q - p) as real / MaxSample as real;
  }

  /** Regrouping a product of three reals. */
  lemma MulAssoc(a: real, b: real, c: real)
    ensures a * b * c == a * (b * c)
  {
  }

  /** Cancelling a non-zero factor. */
  lemma MulCancel(a: real, b: real, s: real)
    requires s != 0.0 && a * s == b * s
    ensures a == b
  {
    assert (a - b) * s == 0.0;
  }

  /** Multiplying by a non-negative factor preserves `<=`. */
  lemma MulLeReal(a: real, b: real, c: real)
    requires a <= b && 0.0 <= c
    ensures a * c <= b * c
  {
    assert (b - a) * c >= 0.0;
  }

  /** The x, z and y formulas, one input each: equal inputs give equal
      coordinates, and with a non-zero factor equal coordinates give equal
      inputs. */
  lemma VertexAtInjective(width: nat, height: nat, c1: nat, r1: nat, p1: nat,
                          c2: nat, r2: nat, p2: nat, scale: real, maxHeight: real)
    requires p1 <= MaxSample && p2 <= MaxSample
    ensures var v1 := VertexAt(width, height, c1, r1, p1, scale, maxHeight);
      var v2 := VertexAt(width, height, c2, r2, p2, scale, maxHeight);
      && (c1 == c2 ==> v1.x == v2.x)
      && (r1 == r2 ==> v1.z == v2.z)
      && (p1 == p2 ==> v1.y == v2.y)
      && (scale != 0.0 && v1.x == v2.x ==> c1 == c2)
      && (scale != 0.0 && v1.z == v2.z ==> r1 == r2)
      && (maxHeight * scale != 0.0 && v1.y == v2.y ==> p1 == p2)
  {
    var hw, hh := width as real / 2.0, height as real / 2.0;
    if scale != 0.0 {
      if ((c1 as real - hw) * scale == (c2 as real - hw) * scale) {
        MulCancel(c1 as real - hw, c2 as real - hw, scale);
      }
      if ((r1 as real - hh) * scale == (r2 as real - hh) * scale) {
        MulCancel(r1 as real - hh, r2 as real - hh, scale);
      }
    }
    var f := maxHeight * scale;
    MulAssoc(Normalise(p1), maxHeight, scale);
    MulAssoc(Normalise(p2), maxHeight, scale);
    if f != 0.0 && Normalise(p1) * f == Normalise(p2) * f {
      MulCancel(Normalise(p1), Normalise(p2), f);
      assert p1 as real == Normalise(p1) * MaxSample as real;
      assert p2 as real == Normalise(p2) * MaxSample as real;
    }
  }

  /** With a non-negative factor `maxHeight * scale` the height lies between
      0 (black) and the factor (white) and grows with the sample. */
  lemma VertexAtHeight(width: nat, height: nat, c1: nat, r1: nat, p1: nat,
                       c2: nat, r2: nat, p2: nat, scale: real, maxHeight: real)
    requires p1 <= MaxSample && p2 <= MaxSample && 0.0 <= maxHeight * scale
    ensures var v1 := VertexAt(width, height, c1, r1, p1, scale, maxHeight);
      var v2 := VertexAt(width, height, c2, r2, p2, scale, maxHeight);
      && 0.0 <= v1.y <= maxHeight * scale
      && (p1 == 0 ==> v1.y == 0.0)
      && (p1 == MaxSample ==> v1.y == maxHeight * scale)
      && (p1 <= p2 ==> v1.y <= v2.y)
  {
    var f := maxHeight * scale;
    var a, b := Normalise(p1), Normalise(p2);
    assert VertexAt(width, height, c1, r1, p1, scale, maxHeight).y == a * f by {
      MulAssoc(a, maxHeight, scale);
    }
    assert VertexAt(width, height, c2, r2, p2, scale, maxHeight).y == b * f by {
      MulAssoc(b, maxHeight, scale);
    }
    if p1 <= p2 {
      NormaliseMono(p1, p2);
    }
    ScaledUnit(a, b, f);
  }

  /** A fraction of a non-negative factor lies between 0 and the factor,
      and a larger fraction gives a larger part. */
  lemma ScaledUnit(a: real, b: real, f: real)
    requires 0.0 <= a <= 1.0 && 0.0 <= f
    ensures 0.0 <= a * f <= f
    ensures a <= b ==> a * f <= b * f
  {
    MulLeReal(0.0, a, f);
    MulLeReal(a, 1.0, f);
    if a <= b {
      MulLeReal(a, b, f);
    }
  }

  /** Neighbouring pixels are one `scale` step apart: to the right in x,
      downwards in z. */
  lemma NeighbourSteps(width: nat, height: nat, col: nat, row: nat, p: nat, q: nat,
                       scale: real, maxHeight: real)
    requires p <= MaxSample && q <= MaxSample
    ensures VertexAt(width, height, col + 1, row, p, scale, maxHeight).x
            - VertexAt(width, height, col, row, q, scale, maxHeight).x == scale
    ensures VertexAt(width, height, col, row + 1, p, scale, maxHeight).z
            - VertexAt(width, height, col, row, q, scale, maxHeight).z == scale
  {
    var a, b := col as real - width as real / 2.0, row as real - height as real / 2.0;
    assert (col + 1) as real - width as real / 2.0 == a + 1.0;
    assert (row + 1) as real - height as real / 2.0 == b + 1.0;
    assert (a + 1.0) * scale - a * scale == scale;
    assert (b + 1.0) * scale - b * scale == scale;
  }

  /** In the vertex list, x depends on the column only, z on the row only
      and y on the sample only; with non-zero factors the converse holds. */
  lemma CoordinateDependence(g: Grid, scale: real, maxHeight: real, i: nat, j: nat)
    requires g.Valid() && i < g.width * g.height && j < g.width * g.height
    ensures var vs := Vertices(g, scale, maxHeight);
      && (i % g.width == j % g.width ==> vs[i].x == vs[j].x)
      && (i / g.width == j / g.width ==> vs[i].z == vs[j].z)
      && (g.samples[i] == g.samples[j] ==> vs[i].y == vs[j].y)
      && (scale != 0.0 && vs[i].x == vs[j].x ==> i % g.width == j % g.width)
      && (scale != 0.0 && vs[i].z == vs[j].z ==> i / g.width == j / g.width)
      && (maxHeight * scale != 0.0 && vs[i].y == vs[j].y ==> g.samples[i] == g.samples[j])
  {
    VertexAtInjective(g.width, g.height, i % g.width, i / g.width, g.samples[i],
                      j % g.width, j / g.width, g.samples[j], scale, maxHeight);
  }

  /** With `scale` zero the whole mesh collapses onto the origin,
      whatever the samples and the maximum height. */
  lemma ZeroScaleCollapses(g: Grid, maxHeight: real, k: nat)
    requires g.Valid() && k < g.width * g.height
    ensures Vertices(g, 0.0, maxHeight)[k] == Vertex(0.0, 0.0, 0.0)
  {
  }

  /** With a non-negative height factor `maxHeight * scale`, heights lie
      between 0 (black) and the factor (white), and a brighter pixel is
      never lower than a darker one. */
  lemma HeightRange(g: Grid, scale: real, maxHeight: real, i: nat, j: nat)
    requires g.Valid() && i < g.width * g.height && j < g.width * g.height
    requires 0.0 <= maxHeight * scale
    ensures var vs := Vertices(g, scale, maxHeight);
      && 0.0 <= vs[i].y <= maxHeight * scale
      && (g.samples[i] == 0 ==> vs[i].y == 0.0)
      && (g.samples[i] == MaxSample ==> vs[i].y == maxHeight * scale)
      && (g.samples[i] <= g.samples[j] ==> vs[i].y <= vs[j].y)
  {
    VertexAtHeight(g.width, g.height, i % g.width, i / g.width, g.samples[i],
                   j % g.width, j / g.width, g.samples[j], scale, maxHeight);
  }

  /** Column recovered from an x coordinate (inverse of the x formula). */
  function ColumnOf(width: nat, scale: real, x: real): (col: real)
    requires scale != 0.0
  {
    x / scale + width as real / 2.0
  }

  /** Row recovered from a z coordinate (inverse of the z formula). */
  function RowOf(height: nat, scale: real, z: real): (row: real)
    requires scale != 0.0
  {
    z / scale + height as real / 2.0
  }

  /** Sample recovered from a height (inverse of the y formula). */
  function SampleOf(scale: real, maxHeight: real, y: real): (p: real)
    requires maxHeight * scale != 0.0
  {
    y * MaxSample as real / (maxHeight * scale)
  }

  /** The vertex list loses nothing when `scale` and `maxHeight` are
      non-zero: each vertex gives back its pixel's column, row and sample. */
  lemma VerticesDetermineHeightmap(g: Grid, scale: real, maxHeight: real, k: nat)
    requires g.Valid() && k < g.width * g.height && scale != 0.0
    ensures var v := Vertices(g, scale, maxHeight)[k];
      && ColumnOf(g.width, scale, v.x) == (k % g.width) as real
      && RowOf(g.height, scale, v.z) == (k / g.width) as real
      && (maxHeight != 0.0 ==> SampleOf(scale, maxHeight, v.y) == g.samples[k] as real)
  {
  }
}
