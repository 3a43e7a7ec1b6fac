/**
 * Line: a segment from an origin point to a terminus point of the same
 * rank. Its RANK is the origin's rank. The planar predicates read the first
 * two coordinates through the 1-based accessor, x = d(1) and y = d(2).
 */
module Lines {
  import opened Wrappers
  import opened Tolerance
  import opened Points

  datatype Line = Line(origin: Point, terminus: Point) {
    /** RANK, taken from the origin. */
    function Rank(): nat { origin.Rank() }
  }

  /** Line.create: refuses a null endpoint and endpoints of different rank. */
  function Create(origin: Option<Point>, terminus: Option<Point>): (r: Result<Line>)
    ensures r.Success? <==> origin.Some? && terminus.Some? && origin.value.Rank() == terminus.value.Rank()
    ensures r.Success? ==>
      r.value.origin == origin.value && r.value.terminus == terminus.value && r.value.Rank() == origin.value.Rank()
    ensures r.Failure? ==> r.error == if origin.None? || terminus.None? then NullArgument else DimensionMismatch
  {
    if origin.None? || terminus.None? then Failure(NullArgument)
    else if origin.value.Rank() != terminus.value.Rank() then Failure(DimensionMismatch)
    else Success(Line(origin.value, terminus.value))
  }

  /** x = d(1) of a point with at least one coordinate. */
  function X(p: Point): real
    requires p.Rank() >= 1
  {
    D(p, 1).value
  }

  /** y = d(2) of a point with at least two coordinates. */
  function Y(p: Point): real
    requires p.Rank() >= 2
  {
    D(p, 2).value
  }

  /** The planar cross product u.x * v.y - u.y * v.x. */
  function Cross(ux: real, uy: real, vx: real, vy: real): real {
    ux * vy - uy * vx
  }

  /**
   * Line.sign: which side of the segment `p` lies on. It reads d(1) and
   * d(2) of both endpoints and of `p`, so a point of rank below 2 fails.
   * Its value is the cross product of (p - terminus) and (origin - terminus).
   */
  function Sign(l: Line, p: Point): (r: Result<real>)
    ensures r.Success? <==> l.origin.Rank() >= 2 && l.terminus.Rank() >= 2 && p.Rank() >= 2
    ensures r.Failure? ==> r.error == IndexOutOfRange
    ensures r.Success? ==>
      var o, t := l.origin, l.terminus;
      r.value == Cross(X(p) - X(t), Y(p) - Y(t), X(o) - X(t), Y(o) - Y(t))
  {
    if l.origin.Rank() < 2 || l.terminus.Rank() < 2 || p.Rank() < 2 then Failure(IndexOutOfRange)
    else
      var o, t := l.origin, l.terminus;
      Success((Y(o) - Y(t)) * (X(p) - X(t)) - (X(o) - X(t)) * (Y(p) - Y(t)))
  }

  /** A segment's own endpoints lie on it: sign is zero at both. */
  lemma SignZeroAtEndpoints(l: Line)
    requires l.origin.Rank() >= 2 && l.terminus.Rank() >= 2
    ensures Sign(l, l.origin) == Success(0.0)
    ensures Sign(l, l.terminus) == Success(0.0)
  {
    var o, t := l.origin, l.terminus;
    CrossSelfZero(X(o) - X(t), Y(o) - Y(t));
    CrossZeroLeft(X(o) - X(t), Y(o) - Y(t));
  }

  /** The zero vector crossed with anything is zero. */
  lemma CrossZeroLeft(vx: real, vy: real)
    ensures Cross(0.0, 0.0, vx, vy) == 0.0
  {
  }

  /** A vector crossed with itself is zero. */
  lemma CrossSelfZero(ux: real, uy: real)
    ensures Cross(ux, uy, ux, uy) == 0.0
  {
  }

  /** Reversing a segment negates sign for every point. */
  lemma SignReversed(l: Line, p: Point)
    requires l.origin.Rank() >= 2 && l.terminus.Rank() >= 2 && p.Rank() >= 2
    ensures Sign(Line(l.terminus, l.origin), p).Success?
    ensures Sign(Line(l.terminus, l.origin), p).value == -Sign(l, p).value
  {
    var o, t := l.origin, l.terminus;
    CrossReversed(X(o), Y(o), X(t), Y(t), X(p), Y(p));
  }

  /** The side test against (t, o) is the negation of the side test against (o, t). */
  lemma CrossReversed(ox: real, oy: real, tx: real, ty: real, px: real, py: real)
    ensures Cross(px - ox, py - oy, tx - ox, ty - oy) == -Cross(px - tx, py - ty, ox - tx, oy - ty)
  {
  }

  /** Line.intersects: not implemented for any dimensionality; always false. */
  function Intersects(l: Line, other: Line): (r: bool)
    ensures !r
  {
    false
  }

  /** Both segments are at least planar, so d(1) and d(2) are defined on every endpoint. */
  predicate Planar(l: Line, other: Line) {
    l.origin.Rank() >= 2 && l.terminus.Rank() >= 2 && other.origin.Rank() >= 2 && other.terminus.Rank() >= 2
  }

  /**
   * The denominator and the two numerators of intersects3d. With direction
   * d = terminus - origin, other direction e and w = origin - other.origin,
   * they are cross(d, e), cross(e, w) and cross(d, w).
   */
  function Terms(l: Line, other: Line): (real, real, real)
    requires Planar(l, other)
  {
    var o, t, p, q := l.origin, l.terminus, other.origin, other.terminus;
    var denominator := (Y(q) - Y(p)) * (X(t) - X(o)) - (X(q) - X(p)) * (Y(t) - Y(o));
    var aNumerator := (X(q) - X(p)) * (Y(o) - Y(p)) - (Y(q) - Y(p)) * (X(o) - X(p));
    var bNumerator := (X(t) - X(o)) * (Y(o) - Y(p)) - (Y(t) - Y(o)) * (X(o) - X(p));
    (denominator, aNumerator, bNumerator)
  }

  /**
   * Line.intersects3d: planar segment intersection. A denominator within
   * EPSILON of zero (parallel segments) answers whether both numerators are
   * within EPSILON of zero too; otherwise both parameters (numerator over
   * denominator) must lie in (0, 1].
   */
  function Intersects3d(l: Line, other: Line): (r: Result<bool>)
    ensures r.Success? <==> Planar(l, other)
    ensures r.Failure? ==> r.error == IndexOutOfRange
    ensures r.Success? && IsEqual(Terms(l, other).0, 0.0, EPSILON) ==>
      (r.value <==> IsEqual(Terms(l, other).1, 0.0, EPSILON) && IsEqual(Terms(l, other).2, 0.0, EPSILON))
    ensures r.Success? && !IsEqual(Terms(l, other).0, 0.0, EPSILON) ==>
      (r.value <==> 0.0 < Terms(l, other).1 / Terms(l, other).0 <= 1.0 && 0.0 < Terms(l, other).2 / Terms(l, other).0 <= 1.0)
  {
    if !Planar(l, other) then Failure(IndexOutOfRange)
    else
      var (denominator, aNumerator, bNumerator) := Terms(l, other);
      if IsEqual(denominator, 0.0, EPSILON) then
        Success(IsEqual(aNumerator, 0.0, EPSILON) && IsEqual(bNumerator, 0.0, EPSILON))
      else
        var aParameter := aNumerator / denominator;
        var bParameter := bNumerator / denominator;
        Success(aParameter > 0.0 && aParameter <= 1.0 && bParameter > 0.0 && bParameter <= 1.0)
  }

  /**
   * When the denominator is not zero, the parameters locate the crossing of
   * the two carrier lines: origin + a * direction equals
   * other.origin + b * other direction, in both coordinates.
   */
  lemma ParametersMeet(l: Line, other: Line)
    requires Planar(l, other) && Terms(l, other).0 != 0.0
    ensures
      var (den, aNum, bNum) := Terms(l, other);
      var o, t, p, q := l.origin, l.terminus, other.origin, other.terminus;
      X(o) + aNum / den * (X(t) - X(o)) == X(p) + bNum / den * (X(q) - X(p)) &&
      Y(o) + aNum / den * (Y(t) - Y(o)) == Y(p) + bNum / den * (Y(q) - Y(p))
  {
    var o, t, p, q := l.origin, l.terminus, other.origin, other.terminus;
    MeetingPoint(X(o), Y(o), X(t), Y(t), X(p), Y(p), X(q), Y(q));
  }

  /** Cramer's rule for two planar carrier lines, written out on coordinates. */
  lemma MeetingPoint(ox: real, oy: real, tx: real, ty: real, px: real, py: real, qx: real, qy: real)
    requires (qy - py) * (tx - ox) - (qx - px) * (ty - oy) != 0.0
    ensures
      var den := (qy - py) * (tx - ox) - (qx - px) * (ty - oy);
      var aNum := (qx - px) * (oy - py) - (qy - py) * (ox - px);
      var bNum := (tx - ox) * (oy - py) - (ty - oy) * (ox - px);
      ox + aNum / den * (tx - ox) == px + bNum / den * (qx - px) &&
      oy + aNum / den * (ty - oy) == py + bNum / den * (qy - py)
  {
    var den := (qy - py) * (tx - ox) - (qx - px) * (ty - oy);
    var aNum := (qx - px) * (oy - py) - (qy - py) * (ox - px);
    var bNum := (tx - ox) * (oy - py) - (ty - oy) * (ox - px);
    assert den * (ox - px) + aNum * (tx - ox) == bNum * (qx - px);
    assert den * (oy - py) + aNum * (ty - oy) == bNum * (qy - py);
    DivideThrough(den, ox - px, aNum, tx - ox, bNum, qx - px);
    DivideThrough(den, oy - py, aNum, ty - oy, bNum, qy - py);
  }

  /** Dividing den * w + a * d == b * e through by a non-zero den. */
  lemma DivideThrough(den: real, w: real, a: real, d: real, b: real, e: real)
    requires den != 0.0 && den * w + a * d == b * e
    ensures w + a / den * d == b / den * e
  {
    assert a / den * d == (a * d) / den;
    assert b / den * e == (b * e) / den;
    assert w == (den * w) / den;
  }

  /** Swapping the two lines swaps the parameters, so intersects3d is symmetric. */
  lemma Intersects3dSymmetric(l: Line, other: Line)
    ensures Intersects3d(l, other) == Intersects3d(other, l)
  {
    if Planar(l, other) {
      var (den, aNum, bNum) := Terms(l, other);
      var (den', aNum', bNum') := Terms(other, l);
      var o, t, p, q := l.origin, l.terminus, other.origin, other.terminus;
      SwappedTerms(X(o), Y(o), X(t), Y(t), X(p), Y(p), X(q), Y(q));
      assert den' == -den && aNum' == -bNum && bNum' == -aNum;
      if den != 0.0 {
        assert aNum' / den' == bNum / den;
        assert bNum' / den' == aNum / den;
      }
    }
  }

  /** The three terms with the lines exchanged: each is negated and the numerators trade places. */
  lemma SwappedTerms(ox: real, oy: real, tx: real, ty: real, px: real, py: real, qx: real, qy: real)
    ensures (ty - oy) * (qx - px) - (tx - ox) * (qy - py) == -((qy - py) * (tx - ox) - (qx - px) * (ty - oy))
    ensures (tx - ox) * (py - oy) - (ty - oy) * (px - ox) == -((tx - ox) * (oy - py) - (ty - oy) * (ox - px))
    ensures (qx - px) * (py - oy) - (qy - py) * (px - ox) == -((qx - px) * (oy - py) - (qy - py) * (ox - px))
  {
  }

  /** The diagonals of the square (0,0)-(2,2) cross at their midpoints. */
  lemma DiagonalsIntersect()
    ensures Intersects3d(Line(Point([0.0, 0.0]), Point([2.0, 2.0])), Line(Point([0.0, 2.0]), Point([2.0, 0.0])))
         == Success(true)
  {
    var (den, aNum, bNum) := Terms(Line(Point([0.0, 0.0]), Point([2.0, 2.0])), Line(Point([0.0, 2.0]), Point([2.0, 0.0])));
    assert den == -8.0 && aNum == -4.0 && bNum == -4.0;
  }

  /** Two distinct parallel segments never intersect. */
  lemma ParallelSegmentsDoNotIntersect()
    ensures Intersects3d(Line(Point([0.0, 0.0]), Point([1.0, 0.0])), Line(Point([0.0, 1.0]), Point([1.0, 1.0])))
         == Success(false)
  {
    var (den, aNum, bNum) := Terms(Line(Point([0.0, 0.0]), Point([1.0, 0.0])), Line(Point([0.0, 1.0]), Point([1.0, 1.0])));
    assert den == 0.0 && aNum == -1.0;
  }

  /** Line.equals: same rank, origin and terminus, compared exactly. */
  function Equals(l: Line, other: Line): (r: bool)
    ensures r <==> l.Rank() == other.Rank() && Points.Equals(l.origin, other.origin) && Points.Equals(l.terminus, other.terminus)
  {
    l == other
  }
}
