/**
 * Face: a triangle given by three points of one rank, with its three
 * directed edges p1->p2, p2->p3, p3->p1. Containment is a strict side test
 * against every edge; two faces intersect when an edge of one crosses an
 * edge of the other or a vertex of one lies inside the other.
 */
module Faces {
  import opened Wrappers
  import opened Points
  import opened Lines

  datatype Face = Face(p1: Point, p2: Point, p3: Point, segments: seq<Line>) {
    /** What every face the constructor builds satisfies. */
    predicate Valid() {
      p1.Rank() >= 2 && p2.Rank() == p1.Rank() && p3.Rank() == p1.Rank() &&
      segments == [Line(p1, p2), Line(p2, p3), Line(p3, p1)]
    }
  }

  /**
   * Face.create and its constructor: the three edges are built with
   * Line.create (null or rank-mismatched endpoints fail there), then the
   * bounding-box corners read d(1) and d(2) of every vertex, which fails
   * below rank 2. The corners themselves are never used.
   */
  function Create(p1: Option<Point>, p2: Option<Point>, p3: Option<Point>): (r: Result<Face>)
    ensures r.Success? <==>
      p1.Some? && p2.Some? && p3.Some? &&
      p2.value.Rank() == p1.value.Rank() && p3.value.Rank() == p1.value.Rank() && p1.value.Rank() >= 2
    ensures r.Failure? ==>
      r.error == if p1.None? || p2.None? then NullArgument
                 else if p1.value.Rank() != p2.value.Rank() then DimensionMismatch
                 else if p3.None? then NullArgument
                 else if p3.value.Rank() != p2.value.Rank() then DimensionMismatch
                 else IndexOutOfRange
    ensures r.Success? ==>
      r.value.Valid() && r.value.p1 == p1.value && r.value.p2 == p2.value && r.value.p3 == p3.value &&
      r.value.segments == [Line(p1.value, p2.value), Line(p2.value, p3.value), Line(p3.value, p1.value)]
  {
    var first := Lines.Create(p1, p2);
    if first.Failure? then Failure(first.error)
    else
      var second := Lines.Create(p2, p3);
      if second.Failure? then Failure(second.error)
      else
        var third := Lines.Create(p3, p1).value;
        var a, b, c := p1.value, p2.value, p3.value;
        if D(a, 1).Failure? || D(b, 1).Failure? || D(c, 1).Failure? then Failure(IndexOutOfRange)
        else if D(a, 2).Failure? || D(b, 2).Failure? || D(c, 2).Failure? then Failure(IndexOutOfRange)
        else Success(Face(a, b, c, [first.value, second.value, third]))
  }

  /**
   * The constructor as written, where the bounding-box corners call the
   * overriding Point.d, which reads elements[k]: d(1) overruns a rank-1
   * point and d(2) a rank-2 point, so only faces of rank 3 or more can be
   * built.
   */
  function CreateAsWritten(p1: Option<Point>, p2: Option<Point>, p3: Option<Point>): (r: Result<Face>)
    ensures r.Success? <==>
      p1.Some? && p2.Some? && p3.Some? &&
      p2.value.Rank() == p1.value.Rank() && p3.value.Rank() == p1.value.Rank() && p1.value.Rank() >= 3
    ensures r.Success? ==> r == Create(p1, p2, p3)
    ensures Create(p1, p2, p3).Success? && p1.value.Rank() == 2 ==> r == Failure(ArrayIndexOutOfBounds)
  {
    var first := Lines.Create(p1, p2);
    if first.Failure? then Failure(first.error)
    else
      var second := Lines.Create(p2, p3);
      if second.Failure? then Failure(second.error)
      else
        // The three vertices share one rank, so p2 and p3 overrun exactly
        // when p1 does, and p1's accessor is the one that throws.
        var third := Lines.Create(p3, p1).value;
        var a, b, c := p1.value, p2.value, p3.value;
        var x1 := DAsWritten(a, 1);
        if x1.Failure? then Failure(x1.error)
        else
          var y1 := DAsWritten(a, 2);
          if y1.Failure? then Failure(y1.error)
          else Success(Face(a, b, c, [first.value, second.value, third]))
  }

  /** As written, no planar triangle can be built, though the 1-based accessor admits every one. */
  lemma PlanarFaceAsWrittenFails(x1: real, y1: real, x2: real, y2: real, x3: real, y3: real)
    ensures Create(Some(Point([x1, y1])), Some(Point([x2, y2])), Some(Point([x3, y3]))).Success?
    ensures CreateAsWritten(Some(Point([x1, y1])), Some(Point([x2, y2])), Some(Point([x3, y3])))
         == Failure(ArrayIndexOutOfBounds)
  {
  }

  /**
   * Face.contains: the point is strictly on the negative side of every
   * edge; a sign of zero on any edge, or a positive one, puts it outside.
   * Only d(1) and d(2) of the point are read, so a point below rank 2 fails.
   */
  function Contains(f: Face, p: Point): (r: Result<bool>)
    requires f.Valid()
    ensures r.Success? <==> p.Rank() >= 2
    ensures r.Failure? ==> r.error == IndexOutOfRange
    ensures r.Success? ==>
      (r.value <==>
        Sign(Line(f.p1, f.p2), p).value < 0.0 &&
        Sign(Line(f.p2, f.p3), p).value < 0.0 &&
        Sign(Line(f.p3, f.p1), p).value < 0.0)
  {
    if p.Rank() < 2 then Failure(IndexOutOfRange)
    else
      assert f.segments[0] == Line(f.p1, f.p2) && f.segments[1] == Line(f.p2, f.p3) && f.segments[2] == Line(f.p3, f.p1);
      Success(forall i | 0 <= i < |f.segments| :: Sign(f.segments[i], p).value < 0.0)
  }

  /** Twice the signed area of the triangle: positive when p1, p2, p3 turn counter-clockwise. */
  function Orientation(f: Face): real
    requires f.Valid()
  {
    Cross(X(f.p2) - X(f.p1), Y(f.p2) - Y(f.p1), X(f.p3) - X(f.p1), Y(f.p3) - Y(f.p1))
  }

  /** The three edge signs of any point add up to the orientation of the face. */
  lemma SignSum(f: Face, p: Point)
    requires f.Valid() && p.Rank() >= 2
    ensures Sign(Line(f.p1, f.p2), p).value + Sign(Line(f.p2, f.p3), p).value + Sign(Line(f.p3, f.p1), p).value
         == Orientation(f)
  {
    SignSumIdentity(X(f.p1), Y(f.p1), X(f.p2), Y(f.p2), X(f.p3), Y(f.p3), X(p), Y(p));
  }

  lemma SignSumIdentity(x1: real, y1: real, x2: real, y2: real, x3: real, y3: real, px: real, py: real)
    ensures Cross(px - x2, py - y2, x1 - x2, y1 - y2) + Cross(px - x3, py - y3, x2 - x3, y2 - y3)
          + Cross(px - x1, py - y1, x3 - x1, y3 - y1)
         == Cross(x2 - x1, y2 - y1, x3 - x1, y3 - y1)
  {
  }

  /**
   * Under the sign convention of Line.sign, a face contains a point only
   * when its vertices are listed clockwise: a counter-clockwise face
   * contains nothing.
   */
  lemma ContainsImpliesClockwise(f: Face, p: Point)
    requires f.Valid() && p.Rank() >= 2
    requires Contains(f, p).value
    ensures Orientation(f) < 0.0
  {
    SignSum(f, p);
  }

  /** (1,1) lies inside the triangle (0,0),(4,0),(0,3), yet only the clockwise listing contains it. */
  lemma ContainsDependsOnWinding()
    ensures
      var counter := Create(Some(Point([0.0, 0.0])), Some(Point([4.0, 0.0])), Some(Point([0.0, 3.0])));
      var clockwise := Create(Some(Point([0.0, 0.0])), Some(Point([0.0, 3.0])), Some(Point([4.0, 0.0])));
      counter.Success? && clockwise.Success? &&
      Sign(Line(Point([0.0, 0.0]), Point([4.0, 0.0])), Point([1.0, 1.0])) == Success(4.0) &&
      Contains(counter.value, Point([1.0, 1.0])) == Success(false) &&
      Contains(clockwise.value, Point([1.0, 1.0])) == Success(true)
  {
  }

  /** The same triangle with its vertices listed in the opposite order. */
  function Reversed(f: Face): (g: Face)
    requires f.Valid()
    ensures g.Valid() && g.p1 == f.p1 && g.p2 == f.p3 && g.p3 == f.p2
  {
    Face(f.p1, f.p3, f.p2, [Line(f.p1, f.p3), Line(f.p3, f.p2), Line(f.p2, f.p1)])
  }

  /**
   * A point-in-triangle test that does not depend on the winding: the point
   * is strictly on one and the same side of all three edges.
   */
  function ContainsAnyWinding(f: Face, p: Point): (r: Result<bool>)
    requires f.Valid()
    ensures r.Success? <==> p.Rank() >= 2
    ensures r.Failure? ==> r.error == IndexOutOfRange
    ensures r.Success? ==> (r.value <==> Contains(f, p).value || Contains(Reversed(f), p).value)
  {
    if p.Rank() < 2 then Failure(IndexOutOfRange)
    else
      var s1, s2, s3 := Sign(Line(f.p1, f.p2), p).value, Sign(Line(f.p2, f.p3), p).value, Sign(Line(f.p3, f.p1), p).value;
      SignReversed(Line(f.p1, f.p2), p);
      SignReversed(Line(f.p2, f.p3), p);
      SignReversed(Line(f.p3, f.p1), p);
      Success((s1 < 0.0 && s2 < 0.0 && s3 < 0.0) || (s1 > 0.0 && s2 > 0.0 && s3 > 0.0))
  }

  /** The winding-free test gives the same answer for both listings of a triangle. */
  lemma ContainsAnyWindingIgnoresOrder(f: Face, p: Point)
    requires f.Valid()
    ensures ContainsAnyWinding(Reversed(f), p) == ContainsAnyWinding(f, p)
  {
    if p.Rank() >= 2 {
      SignReversed(Line(f.p1, f.p2), p);
      SignReversed(Line(f.p2, f.p3), p);
      SignReversed(Line(f.p3, f.p1), p);
    }
  }

  /** On a clockwise face the winding-free test agrees with contains as written. */
  lemma ContainsAnyWindingOnClockwise(f: Face, p: Point)
    requires f.Valid() && p.Rank() >= 2 && Orientation(f) < 0.0
    ensures ContainsAnyWinding(f, p) == Contains(f, p)
  {
    SignSum(f, p);
  }

  /** (1,1) is inside (0,0),(4,0),(0,3) for the winding-free test, whichever way the vertices are listed. */
  lemma ContainsAnyWindingExample()
    ensures
      var counter := Create(Some(Point([0.0, 0.0])), Some(Point([4.0, 0.0])), Some(Point([0.0, 3.0])));
      counter.Success? &&
      ContainsAnyWinding(counter.value, Point([1.0, 1.0])) == Success(true) &&
      ContainsAnyWinding(Reversed(counter.value), Point([1.0, 1.0])) == Success(true)
  {
    var counter := Create(Some(Point([0.0, 0.0])), Some(Point([4.0, 0.0])), Some(Point([0.0, 3.0])));
    var clockwise := Create(Some(Point([0.0, 0.0])), Some(Point([0.0, 3.0])), Some(Point([4.0, 0.0])));
    ContainsDependsOnWinding();
    assert Reversed(counter.value) == clockwise.value;
    ContainsAnyWindingIgnoresOrder(counter.value, Point([1.0, 1.0]));
  }

  /** Every vertex lies on two of the edges, so no face contains its own vertices. */
  lemma NoVertexContained(f: Face)
    requires f.Valid()
    ensures Contains(f, f.p1) == Success(false)
    ensures Contains(f, f.p2) == Success(false)
    ensures Contains(f, f.p3) == Success(false)
  {
    SignZeroAtEndpoints(Line(f.p1, f.p2));
    SignZeroAtEndpoints(Line(f.p2, f.p3));
  }

  /** Face.areSegmentsCrossing: some edge of one face intersects some edge of the other. */
  function AreSegmentsCrossing(f: Face, g: Face): (r: bool)
    requires f.Valid() && g.Valid()
    ensures !r
  {
    exists i, j | 0 <= i < |f.segments| && 0 <= j < |g.segments| :: Lines.Intersects(f.segments[i], g.segments[j])
  }

  /** Face.isInside: a vertex of the other face lies in this one, or a vertex of this face in the other. */
  function IsInside(f: Face, g: Face): (r: bool)
    requires f.Valid() && g.Valid()
    ensures r <==>
      Contains(f, g.p1).value || Contains(f, g.p2).value || Contains(f, g.p3).value ||
      Contains(g, f.p1).value || Contains(g, f.p2).value || Contains(g, f.p3).value
  {
    Contains(f, g.p1).value || Contains(f, g.p2).value || Contains(f, g.p3).value ||
    Contains(g, f.p1).value || Contains(g, f.p2).value || Contains(g, f.p3).value
  }

  /** Face.intersects: crossing edges or a vertex inside; with no edge crossing ever found, the vertex test alone. */
  function Intersects(f: Face, g: Face): (r: bool)
    requires f.Valid() && g.Valid()
    ensures r <==> IsInside(f, g)
  {
    AreSegmentsCrossing(f, g) || IsInside(f, g)
  }

  /** isInside tests both directions, so it does not depend on which face asks. */
  lemma IsInsideSymmetric(f: Face, g: Face)
    requires f.Valid() && g.Valid()
    ensures IsInside(f, g) == IsInside(g, f)
    ensures Intersects(f, g) == Intersects(g, f)
  {
  }

  /** A vertex of either face inside the other makes the faces intersect. */
  lemma ContainedVertexIntersects(f: Face, g: Face, v: Point)
    requires f.Valid() && g.Valid()
    requires (v == g.p1 || v == g.p2 || v == g.p3) && Contains(f, v) == Success(true)
    ensures Intersects(f, g) && Intersects(g, f)
  {
  }

  /** A face never intersects itself: none of its vertices is strictly inside it. */
  lemma NoSelfIntersection(f: Face)
    requires f.Valid()
    ensures !Intersects(f, f)
  {
    NoVertexContained(f);
  }
}
