/**
 Face landmarks and the per-region bounding box: landmarks are normalised to
 the image, are turned into integer pixel points by truncation, and a region's
 box is the axis-aligned min/max box of the points it lists.
 */
module Faces {
  import opened Regions

  /** One face-mesh landmark, in coordinates normalised to the image width and height. */
  datatype Landmark = Landmark(x: real, y: real)

  /** A pixel position of the original image. */
  datatype Point = Point(x: int, y: int)

  /** An axis-aligned box in original-image pixels, as the tuple (x_min, y_min, x_max, y_max). */
  datatype Box = Box(xMin: int, yMin: int, xMax: int, yMax: int)

  /** Pre-resize size of a crop, as the `(height, width)` pair of an image shape. */
  datatype Size = Size(h: int, w: int)

  /** The landmarks of one detected face of the refined mesh, each inside the image. */
  predicate ValidFace(landmarks: seq<Landmark>)
  {
    && |landmarks| == LandmarkCount
    && forall i :: 0 <= i < |landmarks| ==>
         0.0 <= landmarks[i].x <= 1.0 && 0.0 <= landmarks[i].y <= 1.0
  }

  /** Python's `int(r)` on a float: truncation toward zero. */
  function Trunc(r: real): (n: int)
    ensures 0.0 <= r ==> 0 <= n && n as real <= r < n as real + 1.0
    ensures r < 0.0 ==> n <= 0 && n as real - 1.0 < r <= n as real
  {
    if 0.0 <= r then r.Floor else -((-r).Floor)
  }

  /** Pixel point of a landmark in an image of the given width and height. */
  function PixelOf(l: Landmark, width: nat, height: nat): Point
  {
    Point(Trunc(l.x * width as real), Trunc(l.y * height as real))
  }

  /** A coordinate normalised to [0, 1], scaled by an extent, stays in [0, extent]. */
  lemma ScaleStaysInExtent(a: real, extent: nat)
    requires 0.0 <= a <= 1.0
    ensures 0.0 <= a * extent as real <= extent as real
  {
    var e := extent as real;
    var rest := (1.0 - a) * e;
    assert rest >= 0.0;
    assert a * e + rest == e;
  }

  /** Truncating a value in [0, n] gives an integer in [0, n]. */
  lemma TruncStaysInExtent(r: real, n: nat)
    requires 0.0 <= r <= n as real
    ensures 0 <= Trunc(r) <= n
  {
  }

  // One lemma per axis keeps the nonlinear facts of the two axes apart.

  lemma PixelXInImage(l: Landmark, width: nat, height: nat)
    requires 0.0 <= l.x <= 1.0
    ensures 0 <= PixelOf(l, width, height).x <= width
  {
    ScaleStaysInExtent(l.x, width);
    TruncStaysInExtent(l.x * width as real, width);
  }

  lemma PixelYInImage(l: Landmark, width: nat, height: nat)
    requires 0.0 <= l.y <= 1.0
    ensures 0 <= PixelOf(l, width, height).y <= height
  {
    ScaleStaysInExtent(l.y, height);
    TruncStaysInExtent(l.y * height as real, height);
  }

  /** A normalised landmark lands on a pixel inside the image (the right and bottom edge included). */
  lemma PixelInImage(l: Landmark, width: nat, height: nat)
    requires 0.0 <= l.x <= 1.0 && 0.0 <= l.y <= 1.0
    ensures 0 <= PixelOf(l, width, height).x <= width
    ensures 0 <= PixelOf(l, width, height).y <= height
  {
    PixelXInImage(l, width, height);
    PixelYInImage(l, width, height);
  }

  function Min(a: int, b: int): int { if a <= b then a else b }

  function Max(a: int, b: int): int { if a >= b then a else b }

  predicate Contains(b: Box, p: Point)
  {
    b.xMin <= p.x <= b.xMax && b.yMin <= p.y <= b.yMax
  }

  /** The indices can all be looked up in the landmark list (an out-of-range one raises in the source). */
  predicate IndicesInRange(landmarks: seq<Landmark>, indices: seq<nat>)
  {
    forall k :: 0 <= k < |indices| ==> indices[k] < |landmarks|
  }

  /** The pixel points of the listed landmarks, in list order. */
  function Points(landmarks: seq<Landmark>, width: nat, height: nat, indices: seq<nat>): (ps: seq<Point>)
    requires IndicesInRange(landmarks, indices)
    ensures |ps| == |indices|
    ensures forall k :: 0 <= k < |ps| ==> ps[k] == PixelOf(landmarks[indices[k]], width, height)
  {
    seq(|indices|, k requires 0 <= k < |indices| => PixelOf(landmarks[indices[k]], width, height))
  }

  /**
   The enclosing box of a non-empty list of points: the column-wise minimum
   and maximum. Every point lies in the box and each of the four bounds is
   attained by one of the points.
   */
  function Enclose(ps: seq<Point>): (b: Box)
    requires |ps| > 0
    ensures b.xMin <= b.xMax && b.yMin <= b.yMax
    ensures forall k :: 0 <= k < |ps| ==> Contains(b, ps[k])
    ensures exists k :: 0 <= k < |ps| && ps[k].x == b.xMin
    ensures exists k :: 0 <= k < |ps| && ps[k].y == b.yMin
    ensures exists k :: 0 <= k < |ps| && ps[k].x == b.xMax
    ensures exists k :: 0 <= k < |ps| && ps[k].y == b.yMax
  {
    if |ps| == 1 then Box(ps[0].x, ps[0].y, ps[0].x, ps[0].y)
    else
      var rest := Enclose(ps[1..]);
      var b := Box(Min(ps[0].x, rest.xMin), Min(ps[0].y, rest.yMin),
                   Max(ps[0].x, rest.xMax), Max(ps[0].y, rest.yMax));
      // A bound attained in the tail is attained one position later in ps.
      assert forall k :: 0 <= k < |ps| - 1 ==> ps[1..][k] == ps[k + 1];
      b
  }

  /**
   The box of the listed landmarks' pixel points: a well-formed box holding
   every listed point, each of whose bounds is attained by a listed point.
   */
  function PartBoundingBox(landmarks: seq<Landmark>, width: nat, height: nat, indices: seq<nat>): (b: Box)
    requires |indices| > 0
    requires IndicesInRange(landmarks, indices)
    ensures b.xMin <= b.xMax && b.yMin <= b.yMax
    ensures forall k :: 0 <= k < |indices| ==> Contains(b, PixelOf(landmarks[indices[k]], width, height))
    ensures exists k :: 0 <= k < |indices| && PixelOf(landmarks[indices[k]], width, height).x == b.xMin
    ensures exists k :: 0 <= k < |indices| && PixelOf(landmarks[indices[k]], width, height).y == b.yMin
    ensures exists k :: 0 <= k < |indices| && PixelOf(landmarks[indices[k]], width, height).x == b.xMax
    ensures exists k :: 0 <= k < |indices| && PixelOf(landmarks[indices[k]], width, height).y == b.yMax
  {
    Enclose(Points(landmarks, width, height, indices))
  }

  /**
   The box depends only on which indices are listed, not on their order or
   repetitions: two index lists with the same members give the same box.
   */
  lemma {:induction false} BoxDependsOnlyOnListedSet(landmarks: seq<Landmark>, width: nat, height: nat,
                                                     a: seq<nat>, b: seq<nat>)
    requires |a| > 0 && IndicesInRange(landmarks, a)
    requires forall k :: 0 <= k < |a| ==> a[k] in b
    requires forall k :: 0 <= k < |b| ==> b[k] in a
    ensures PartBoundingBox(landmarks, width, height, a) == PartBoundingBox(landmarks, width, height, b)
  {
    assert a[0] in b;
    assert IndicesInRange(landmarks, b) by {
      forall k | 0 <= k < |b|
        ensures b[k] < |landmarks|
      {
        var j :| 0 <= j < |a| && a[j] == b[k];
      }
    }
    var ba := PartBoundingBox(landmarks, width, height, a);
    var bb := PartBoundingBox(landmarks, width, height, b);
    // Each bound of one box is attained by a point the other box contains.
    forall k | 0 <= k < |a|
      ensures Contains(bb, PixelOf(landmarks[a[k]], width, height))
    {
      var j :| 0 <= j < |b| && b[j] == a[k];
    }
    forall k | 0 <= k < |b|
      ensures Contains(ba, PixelOf(landmarks[b[k]], width, height))
    {
      var j :| 0 <= j < |a| && a[j] == b[k];
    }
  }

  /** For landmarks inside the image, the box of any listed subset lies inside the image. */
  lemma BoxInImage(landmarks: seq<Landmark>, width: nat, height: nat, indices: seq<nat>)
    requires ValidFace(landmarks)
    requires |indices| > 0 && IndicesInRange(landmarks, indices)
    ensures
      var b := PartBoundingBox(landmarks, width, height, indices);
      0 <= b.xMin <= b.xMax <= width && 0 <= b.yMin <= b.yMax <= height
  {
    var b := PartBoundingBox(landmarks, width, height, indices);
    var i :| 0 <= i < |indices| && PixelOf(landmarks[indices[i]], width, height).x == b.xMin;
    PixelInImage(landmarks[indices[i]], width, height);
    var j :| 0 <= j < |indices| && PixelOf(landmarks[indices[j]], width, height).y == b.yMin;
    PixelInImage(landmarks[indices[j]], width, height);
    var k :| 0 <= k < |indices| && PixelOf(landmarks[indices[k]], width, height).x == b.xMax;
    PixelInImage(landmarks[indices[k]], width, height);
    var l :| 0 <= l < |indices| && PixelOf(landmarks[indices[l]], width, height).y == b.yMax;
    PixelInImage(landmarks[indices[l]], width, height);
  }

  /** The box of a region of a valid face: inside the image, since every landmark is. */
  function RegionBox(landmarks: seq<Landmark>, width: nat, height: nat, r: Region): (b: Box)
    requires ValidFace(landmarks)
    ensures 0 <= b.xMin <= b.xMax <= width && 0 <= b.yMin <= b.yMax <= height
  {
    BoxInImage(landmarks, width, height, Indices(r));
    PartBoundingBox(landmarks, width, height, Indices(r))
  }

  /** Removing an entry that already occurred earlier in the list leaves the box unchanged. */
  lemma {:induction false} DropRepeatKeepsBox(landmarks: seq<Landmark>, width: nat, height: nat,
                                              front: seq<nat>, repeat: nat, back: seq<nat>)
    requires repeat in front
    requires IndicesInRange(landmarks, front + [repeat] + back)
    ensures IndicesInRange(landmarks, front + back)
    ensures PartBoundingBox(landmarks, width, height, front + [repeat] + back)
         == PartBoundingBox(landmarks, width, height, front + back)
  {
    var full := front + [repeat] + back;
    var dropped := front + back;
    forall k | 0 <= k < |full|
      ensures full[k] in dropped
    {
      if k < |front| {
        assert dropped[k] == full[k];
      } else if k > |front| {
        assert dropped[k - 1] == full[k];
      } else {
        var i :| 0 <= i < |front| && front[i] == repeat;
        assert dropped[i] == full[k];
      }
    }
    forall k | 0 <= k < |dropped|
      ensures dropped[k] in full && dropped[k] < |landmarks|
    {
      if k < |front| {
        assert dropped[k] == full[k];
      } else {
        assert dropped[k] == full[k + 1];
      }
    }
    BoxDependsOnlyOnListedSet(landmarks, width, height, full, dropped);
  }

  /** The nose list with its repeated entries (the second 2 and the second 218) dropped. */
  const NoseDistinct: IndexList :=
    [0, 1, 2, 5, 6, 45, 275, 274, 164, 165, 97, 98, 99,
     94, 240, 218, 219, 220, 237, 134, 399, 398]

  lemma NoseListsHaveSameMembers()
    ensures forall k :: 0 <= k < |Indices(Nose)| ==> Indices(Nose)[k] in NoseDistinct
    ensures forall k :: 0 <= k < |NoseDistinct| ==> NoseDistinct[k] in Indices(Nose)
  {
  }

  /** The nose list names 2 and 218 twice; the repeats leave the nose box unchanged. */
  lemma NoseRepeatsDoNotMatter(landmarks: seq<Landmark>, width: nat, height: nat)
    requires ValidFace(landmarks)
    ensures RegionBox(landmarks, width, height, Nose) == PartBoundingBox(landmarks, width, height, NoseDistinct)
  {
    NoseListsHaveSameMembers();
    BoxDependsOnlyOnListedSet(landmarks, width, height, Indices(Nose), NoseDistinct);
  }

  /**
   Size of the crop `image[y_min:y_max, x_min:x_max]` of a box lying inside
   the image: the `(height, width)` of the sliced pixel grid.
   */
  function CroppedSize(b: Box, width: nat, height: nat): (s: Size)
    requires 0 <= b.xMin <= b.xMax <= width && 0 <= b.yMin <= b.yMax <= height
    ensures 0 <= s.h <= height && 0 <= s.w <= width
    ensures b.xMin + s.w == b.xMax && b.yMin + s.h == b.yMax
  {
    Size(b.yMax - b.yMin, b.xMax - b.xMin)
  }
}
