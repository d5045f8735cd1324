/** The OBJ text the converter writes, as a sequence of line records: a
    five-line comment header and a blank line, then one `v` line per vertex,
    then one `f` line per face. The decimal text of each number is not
    modelled; a record carries the value itself. */
module Obj {
  import opened Geometry
  import opened Topology
  import opened Mesher

  /** The comment lines of the header, in the order they are written. */
  datatype Note =
    | Title
    | OriginalImage(path: string)
    | Dimensions(width: nat, height: nat)
    | ScaleNote(scale: real)
    | MaxHeightNote(maxHeight: real)

  datatype Line =
    | Comment(note: Note)
    | Blank
    | V(vertex: Vertex)
    | F(face: Face)

  /** Number of lines before the first `v` line. */
  const HeaderLength: nat := 6

  /** The five notes of the header, in the order they are written. */
  function HeaderNotes(inPath: string, width: nat, height: nat, scale: real, maxHeight: real): (ns: seq<Note>) {
    [Title, OriginalImage(inPath), Dimensions(width, height), ScaleNote(scale), MaxHeightNote(maxHeight)]
  }

  /** The header: five comment lines naming the input image, its size, the
      scale and the maximum height, closed by a blank line. Its comments
      read back as exactly those five notes, and it holds no vertex and no
      face. */
  function Header(inPath: string, width: nat, height: nat, scale: real, maxHeight: real): (h: seq<Line>)
    ensures |h| == HeaderLength && h[HeaderLength - 1] == Blank
    ensures forall i :: 0 <= i < HeaderLength - 1 ==> h[i].Comment?
    ensures NotesOf(h) == HeaderNotes(inPath, width, height, scale, maxHeight)
    ensures VerticesOf(h) == [] && FacesOf(h) == []
  {
    var h := [Comment(Title), Comment(OriginalImage(inPath)), Comment(Dimensions(width, height)),
              Comment(ScaleNote(scale)), Comment(MaxHeightNote(maxHeight)), Blank];
    ReadNotes(h);
    ReadComments(HeaderNotes(inPath, width, height, scale, maxHeight), h);
    h
  }

  function VertexLines(vs: seq<Vertex>): (ls: seq<Line>) {
    seq(|vs|, i requires 0 <= i < |vs| => V(vs[i]))
  }

  function FaceLines(fs: seq<Face>): (ls: seq<Line>) {
    seq(|fs|, i requires 0 <= i < |fs| => F(fs[i]))
  }

  /** The whole file for mesh `m` of a `width` x `height` image: the header,
      then vertex k on line HeaderLength + k, then face k on line
      HeaderLength + |vertices| + k. Reading the file back gives the mesh
      that was written: the writer neither reorders, drops nor duplicates a
      vertex or a face. Its only comments are the five header notes. */
  function Serialize(inPath: string, width: nat, height: nat, scale: real, maxHeight: real,
                     m: Mesh): (ls: seq<Line>)
    ensures |ls| == HeaderLength + |m.vertices| + |m.faces|
    ensures ls[..HeaderLength] == Header(inPath, width, height, scale, maxHeight)
    ensures forall k :: 0 <= k < |m.vertices| ==> ls[HeaderLength + k] == V(m.vertices[k])
    ensures forall k :: 0 <= k < |m.faces| ==> ls[HeaderLength + |m.vertices| + k] == F(m.faces[k])
    ensures Parse(ls) == m
    ensures NotesOf(ls) == HeaderNotes(inPath, width, height, scale, maxHeight)
  {
    var h := Header(inPath, width, height, scale, maxHeight);
    ReadFile(h, m.vertices, m.faces);
    assert VerticesOf(h) + m.vertices == m.vertices;
    assert FacesOf(h) + m.faces == m.faces;
    h + VertexLines(m.vertices) + FaceLines(m.faces)
  }

  /** The vertices of a file, in the order of its `v` lines. */
  function VerticesOf(ls: seq<Line>): (vs: seq<Vertex>) {
    if ls == [] then []
    else (if ls[0].V? then [ls[0].vertex] else []) + VerticesOf(ls[1..])
  }

  /** The faces of a file, in the order of its `f` lines. */
  function FacesOf(ls: seq<Line>): (fs: seq<Face>) {
    if ls == [] then []
    else (if ls[0].F? then [ls[0].face] else []) + FacesOf(ls[1..])
  }

  /** The notes of a file, in the order of its comment lines. */
  function NotesOf(ls: seq<Line>): (ns: seq<Note>) {
    if ls == [] then []
    else (if ls[0].Comment? then [ls[0].note] else []) + NotesOf(ls[1..])
  }

  /** Reading a file back: its vertex list and its face list. */
  function Parse(ls: seq<Line>): (m: Mesh) {
    Mesh(VerticesOf(ls), FacesOf(ls))
  }

  lemma {:induction false} VerticesOfAppend(a: seq<Line>, b: seq<Line>)
    ensures VerticesOf(a + b) == VerticesOf(a) + VerticesOf(b)
  {
    if a == [] {
      assert a + b == b;
    } else {
      var head := if a[0].V? then [a[0].vertex] else [];
      calc {
        VerticesOf(a + b);
        head + VerticesOf((a + b)[1..]);
        { assert (a + b)[1..] == a[1..] + b; }
        head + VerticesOf(a[1..] + b);
        { VerticesOfAppend(a[1..], b); }
        head + (VerticesOf(a[1..]) + VerticesOf(b));
        VerticesOf(a) + VerticesOf(b);
      }
    }
  }

  lemma {:induction false} FacesOfAppend(a: seq<Line>, b: seq<Line>)
    ensures FacesOf(a + b) == FacesOf(a) + FacesOf(b)
  {
    if a == [] {
      assert a + b == b;
    } else {
      var head := if a[0].F? then [a[0].face] else [];
      calc {
        FacesOf(a + b);
        head + FacesOf((a + b)[1..]);
        { assert (a + b)[1..] == a[1..] + b; }
        head + FacesOf(a[1..] + b);
        { FacesOfAppend(a[1..], b); }
        head + (FacesOf(a[1..]) + FacesOf(b));
        FacesOf(a) + FacesOf(b);
      }
    }
  }

  lemma {:induction false} NotesOfAppend(a: seq<Line>, b: seq<Line>)
    ensures NotesOf(a + b) == NotesOf(a) + NotesOf(b)
  {
    if a == [] {
      assert a + b == b;
    } else {
      var head := if a[0].Comment? then [a[0].note] else [];
      calc {
        NotesOf(a + b);
        head + NotesOf((a + b)[1..]);
        { assert (a + b)[1..] == a[1..] + b; }
        head + NotesOf(a[1..] + b);
        { NotesOfAppend(a[1..], b); }
        head + (NotesOf(a[1..]) + NotesOf(b));
        NotesOf(a) + NotesOf(b);
      }
    }
  }

  /** Each reader splits over a file made of three consecutive parts. */
  lemma ReadSections(a: seq<Line>, b: seq<Line>, c: seq<Line>)
    ensures VerticesOf(a + b + c) == VerticesOf(a) + VerticesOf(b) + VerticesOf(c)
    ensures FacesOf(a + b + c) == FacesOf(a) + FacesOf(b) + FacesOf(c)
    ensures NotesOf(a + b + c) == NotesOf(a) + NotesOf(b) + NotesOf(c)
  {
    VerticesOfAppend(a, b);
    VerticesOfAppend(a + b, c);
    FacesOfAppend(a, b);
    FacesOfAppend(a + b, c);
    NotesOfAppend(a, b);
    NotesOfAppend(a + b, c);
  }

  /** A header followed by `v` lines and `f` lines: where each line sits,
      and what each reader finds in the whole. */
  lemma ReadFile(h: seq<Line>, vs: seq<Vertex>, fs: seq<Face>)
    requires |h| == HeaderLength
    ensures var ls := h + VertexLines(vs) + FaceLines(fs);
      && |ls| == HeaderLength + |vs| + |fs|
      && ls[..HeaderLength] == h
      && (forall k :: 0 <= k < |vs| ==> ls[HeaderLength + k] == V(vs[k]))
      && (forall k :: 0 <= k < |fs| ==> ls[HeaderLength + |vs| + k] == F(fs[k]))
      && VerticesOf(ls) == VerticesOf(h) + vs
      && FacesOf(ls) == FacesOf(h) + fs
      && NotesOf(ls) == NotesOf(h)
  {
    var vl, fl := VertexLines(vs), FaceLines(fs);
    ReadVertexLines(vs);
    ReadFaceLines(fs);
    ReadSections(h, vl, fl);
    assert NotesOf(h) + [] + [] == NotesOf(h);
    assert VerticesOf(h) + vs + [] == VerticesOf(h) + vs;
    assert FacesOf(h) + [] + fs == FacesOf(h) + fs;
  }

  /** Comment lines, optionally closed by one blank line, read back as
      exactly the notes they carry. */
  lemma {:induction false} ReadComments(ns: seq<Note>, ls: seq<Line>)
    requires |ls| == |ns| || (|ls| == |ns| + 1 && ls[|ns|] == Blank)
    requires forall i :: 0 <= i < |ns| ==> ls[i] == Comment(ns[i])
    ensures NotesOf(ls) == ns
  {
    if ls != [] {
      if ns == [] {
        assert ls == [Blank];
      } else {
        ReadComments(ns[1..], ls[1..]);
      }
    }
  }

  /** `v` lines read back as exactly the vertices written, and hold no face
      and no note. */
  lemma {:induction false} ReadVertexLines(vs: seq<Vertex>)
    ensures VerticesOf(VertexLines(vs)) == vs
    ensures FacesOf(VertexLines(vs)) == []
    ensures NotesOf(VertexLines(vs)) == []
  {
    if vs != [] {
      assert VertexLines(vs)[1..] == VertexLines(vs[1..]);
      ReadVertexLines(vs[1..]);
    }
  }

  /** `f` lines read back as exactly the faces written, and hold no vertex
      and no note. */
  lemma {:induction false} ReadFaceLines(fs: seq<Face>)
    ensures FacesOf(FaceLines(fs)) == fs
    ensures VerticesOf(FaceLines(fs)) == []
    ensures NotesOf(FaceLines(fs)) == []
  {
    if fs != [] {
      assert FaceLines(fs)[1..] == FaceLines(fs[1..]);
      ReadFaceLines(fs[1..]);
    }
  }

  /** Comment and blank lines hold neither vertices nor faces. */
  lemma {:induction false} ReadNotes(ls: seq<Line>)
    requires forall i :: 0 <= i < |ls| ==> ls[i].Comment? || ls[i].Blank?
    ensures VerticesOf(ls) == [] && FacesOf(ls) == []
  {
    if ls != [] {
      ReadNotes(ls[1..]);
    }
  }
}
