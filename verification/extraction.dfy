/**
 The point-cloud extraction in `ofApp::setup` (src/ofApp.cpp): the mesh is
 cleared, then column groups start at every fourth column (outer loop) and
 every row is visited inside each group (inner loop). Pixels i, i+1 and i+2
 of the row are decoded into x, y and z; pixel i+3 is fetched but unused.
 A candidate is appended to the mesh only when it lies in the region.

 The functions here give the extraction as a value (`Extract`); the method
 `BuildMesh` is the loop nest of the source, proved to compute that value.
 */
module Extraction {
  import opened Channels
  import opened Bounds

  /** A mesh vertex. */
  datatype Point = Point(x: real, y: real, z: real)

  /** An image: `rows[j][i]` is the pixel `getColor(i, j)` at column i, row j. */
  datatype Image = Image(width: nat, height: nat, rows: seq<seq<Color>>)

  /** The pixel buffer has the stated width and height. */
  predicate WellFormed(img: Image)
  {
    && |img.rows| == img.height
    && forall j :: 0 <= j < |img.rows| ==> |img.rows[j]| == img.width
  }

  /**
   Every group of four pixels the scan reads lies inside the image: the
   outer loop reads columns i..i+3 for every i < width with i % 4 == 0.
   */
  predicate GroupsInRange(img: Image)
  {
    WellFormed(img) && img.width % 4 == 0
  }

  /** `getColor(i, j)`. */
  function At(img: Image, i: nat, j: nat): (c: Color)
    requires WellFormed(img) && i < img.width && j < img.height
  {
    img.rows[j][i]
  }

  /** The region test applied to a point. */
  predicate InRegion(p: Point)
  {
    WithinBounds(p.x, p.y, p.z)
  }

  /** How one pixel becomes one coordinate. */
  type Decoder = Color -> real

  /**
   The decoder of the source: `unpackFloat` with a given reading of bits as
   a float. Each pixel is read through its bytes r, g, b, a, in that order.
   */
  function UnpackWith(asFloat: Reinterpret): (decode: Decoder)
    ensures forall c :: decode(c) == asFloat([c.r, c.g, c.b, c.a])
  {
    c => UnpackFloat(c, asFloat)
  }

  /**
   The candidate point of column group `i`, row `j`: x from pixel (i, j),
   y from pixel (i+1, j), z from pixel (i+2, j).
   */
  function CandidateAt(img: Image, decode: Decoder, i: nat, j: nat): (p: Point)
    requires WellFormed(img) && i + 2 < img.width && j < img.height
  {
    Point(decode(At(img, i, j)), decode(At(img, i + 1, j)), decode(At(img, i + 2, j)))
  }

  /**
   With the source's decoder, the candidate's x, y and z are the float
   readings of the bytes r, g, b, a of pixels (i, j), (i+1, j) and (i+2, j).
   */
  lemma CandidateChannels(img: Image, asFloat: Reinterpret, i: nat, j: nat)
    requires WellFormed(img) && i + 2 < img.width && j < img.height
    ensures
      var p := CandidateAt(img, UnpackWith(asFloat), i, j);
      var cx, cy, cz := At(img, i, j), At(img, i + 1, j), At(img, i + 2, j);
      && p.x == asFloat([cx.r, cx.g, cx.b, cx.a])
      && p.y == asFloat([cy.r, cy.g, cy.b, cy.a])
      && p.z == asFloat([cz.r, cz.g, cz.b, cz.a])
  {
  }

  /** The points retained from rows 0 .. m-1 of the group starting at column `i`. */
  function Column(img: Image, decode: Decoder, i: nat, m: nat): (r: seq<Point>)
    requires WellFormed(img) && i + 2 < img.width && m <= img.height
    ensures |r| <= m
    decreases m
  {
    if m == 0 then
      []
    else
      var c := CandidateAt(img, decode, i, m - 1);
      Column(img, decode, i, m - 1) + (if InRegion(c) then [c] else [])
  }

  /** The points retained from the first `g` column groups, in scan order. */
  function Scan(img: Image, decode: Decoder, g: nat): (r: seq<Point>)
    requires WellFormed(img) && 4 * g <= img.width
    decreases g
  {
    if g == 0 then
      []
    else
      Scan(img, decode, g - 1) + Column(img, decode, 4 * (g - 1), img.height)
  }

  /** The vertex list produced from an image, in scan order. */
  function Extract(img: Image, decode: Decoder): (mesh: seq<Point>)
    requires GroupsInRange(img)
  {
    Scan(img, decode, img.width / 4)
  }

  /**
   The loop nest of `ofApp::setup`, with `decode` the pixel decoder
   (`UnpackWith(asFloat)` in the source). Whatever the mesh held before, it
   is cleared, so the result is the extraction of the image alone and two
   runs on the same image give the same vertex list.
   */
  method BuildMesh(img: Image, decode: Decoder, previous: seq<Point>) returns (mesh: seq<Point>)
    requires GroupsInRange(img)
    ensures mesh == Extract(img, decode)
  {
    ghost var groups := img.width / 4;
    assert img.width == 4 * groups;
    mesh := [];
    var i := 0;
    ghost var g := 0;
    while i < img.width
      invariant i == 4 * g && g <= groups
      invariant mesh == Scan(img, decode, g)
    {
      var added := ScanGroup(img, decode, i);
      mesh := mesh + added;
      i := i + 4;
      g := g + 1;
    }
  }

  /**
   The inner loop of `ofApp::setup` for the group starting at column `i`:
   the vertices it appends, rows in ascending order. The fourth pixel is
   fetched as in the source and never used.
   */
  method ScanGroup(img: Image, decode: Decoder, i: nat) returns (added: seq<Point>)
    requires WellFormed(img) && i + 3 < img.width
    ensures added == Column(img, decode, i, img.height)
  {
    added := [];
    var j := 0;
    while j < img.height
      invariant 0 <= j <= img.height
      invariant added == Column(img, decode, i, j)
    {
      var p1 := At(img, i, j);
      var p2 := At(img, i + 1, j);
      var p3 := At(img, i + 2, j);
      var p4 := At(img, i + 3, j);
      var x := decode(p1);
      var y := decode(p2);
      var z := decode(p3);
      if WithinBounds(x, y, z) {
        added := added + [Point(x, y, z)];
      }
      j := j + 1;
    }
  }
}
