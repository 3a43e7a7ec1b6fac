/**
 * Ray: a segment given by an origin point and an offset vector, with the
 * terminus origin + offset. Its RANK is the origin's rank. Squared
 * distances are computed with exact reals; Java's NaN (from 0/0 when the
 * offset is the zero vector) is the `None` of an Option.
 */
module Rays {
  import opened Wrappers
  import opened Tolerance
  import opened Vectors
  import opened Points

  /**
   * `offsetIsPoint` records the runtime class of the offset: create(origin,
   * terminus) stores a Point, create(origin, offset) whatever object the
   * caller passed, which is a Point when a Point is held in a Vector-typed
   * reference. Only equals can tell them apart.
   */
  datatype Ray = Ray(origin: Point, terminus: Point, offset: Vector, offsetIsPoint: bool) {
    /** RANK, taken from the origin. */
    function Rank(): nat { origin.Rank() }

    /** Every ray the two factories build: one positive rank, terminus = origin + offset. */
    predicate Valid() {
      origin.Rank() > 0 && terminus.Rank() == origin.Rank() && offset.Rank() == origin.Rank() &&
      terminus.elements == Sum(origin.elements, offset.elements)
    }
  }

  /**
   * Ray.create(Point, Vector): terminus = origin + offset, turned into a
   * point. The offset object is stored as given; `offsetIsPoint` says
   * whether its runtime class is Point.
   */
  function CreateFromOffset(origin: Option<Point>, offset: Option<Vector>, offsetIsPoint: bool): (r: Result<Ray>)
    ensures r.Success? <==>
      origin.Some? && offset.Some? && offset.value.Rank() == origin.value.Rank() && origin.value.Rank() > 0
    ensures r.Failure? ==>
      r.error == if origin.None? || offset.None? then NullArgument
                 else if offset.value.Rank() != origin.value.Rank() then DimensionMismatch
                 else EmptyInput
    ensures r.Success? ==>
      r.value.Valid() && r.value.origin == origin.value && r.value.offset == offset.value &&
      r.value.offsetIsPoint == offsetIsPoint
  {
    if origin.None? || offset.None? then Failure(NullArgument)
    else if offset.value.Rank() != origin.value.Rank() then Failure(DimensionMismatch)
    else
      var terminus := ToPoint(Vector(Sum(origin.value.elements, offset.value.elements)));
      if terminus.Failure? then Failure(terminus.error)
      else Success(Ray(origin.value, terminus.value, offset.value, offsetIsPoint))
  }

  /** Ray.create(Point, Point): offset = terminus - origin, computed by Point.subtract. */
  function CreateFromTerminus(origin: Option<Point>, terminus: Option<Point>): (r: Result<Ray>)
    ensures r.Success? <==>
      origin.Some? && terminus.Some? && terminus.value.Rank() == origin.value.Rank() && origin.value.Rank() > 0
    ensures r.Failure? ==>
      r.error == if origin.None? || terminus.None? then NullArgument
                 else if terminus.value.Rank() != origin.value.Rank() then DimensionMismatch
                 else EmptyInput
    ensures r.Success? ==>
      r.value.Valid() && r.value.origin == origin.value && r.value.terminus == terminus.value &&
      r.value.offset.elements == Difference(terminus.value.elements, origin.value.elements) && r.value.offsetIsPoint
  {
    if origin.None? || terminus.None? then Failure(NullArgument)
    else if terminus.value.Rank() != origin.value.Rank() then Failure(DimensionMismatch)
    else if origin.value.Rank() == 0 then Failure(EmptyInput)
    else
      var o, t := origin.value, terminus.value;
      assert Sum(o.elements, Difference(t.elements, o.elements)) == t.elements;
      Success(Ray(o, t, Vector(Difference(t.elements, o.elements)), true))
  }

  // ---------------------------------------------------------------------
  // Projection parameter and the point at a parameter
  // ---------------------------------------------------------------------

  /** The unclamped parameter (P - A) . offset / (offset . offset) of the projection of P. */
  function Projection(ray: Ray, point: Point): real
    requires ray.Valid() && point.Rank() == ray.Rank() && Dot(ray.offset.elements, ray.offset.elements) != 0.0
  {
    Dot(Difference(point.elements, ray.origin.elements), ray.offset.elements) / Dot(ray.offset.elements, ray.offset.elements)
  }

  /**
   * Ray.closestApproach: the projection parameter, snapped to 1 when it is
   * at least 1 within EPSILON and to 0 when it is at most 0 within EPSILON.
   * A zero offset gives 0/0, NaN in Java, here `None`.
   */
  function ClosestApproach(ray: Ray, point: Point): (r: Result<Option<real>>)
    requires ray.Valid()
    ensures r.Success? <==> point.Rank() == ray.Rank()
    ensures r.Failure? ==> r.error == DimensionMismatch
    ensures r.Success? ==> (r.value.None? <==> Dot(ray.offset.elements, ray.offset.elements) == 0.0)
    ensures r.Success? && r.value.Some? ==>
      0.0 <= r.value.value <= 1.0 &&
      var t := Projection(ray, point);
      r.value.value == if IsGreaterThanOrEqual(t, 1.0, EPSILON) then 1.0
                       else if IsLessThanOrEqual(t, 0.0, EPSILON) then 0.0
                       else t
  {
    if point.Rank() != ray.Rank() then Failure(DimensionMismatch)
    else
      var pa := Difference(point.elements, ray.origin.elements);
      var norm := Dot(ray.offset.elements, ray.offset.elements);
      if norm == 0.0 then Success(None)
      else
        var t := Dot(pa, ray.offset.elements) / norm;
        if IsGreaterThanOrEqual(t, 1.0, EPSILON) then Success(Some(1.0))
        else if IsLessThanOrEqual(t, 0.0, EPSILON) then Success(Some(0.0))
        else Success(Some(t))
  }

  /**
   * The zero offset gives 0/0 and not x/0: the numerator of the projection
   * parameter is zero too, so Java yields NaN rather than an infinity.
   */
  lemma ZeroOffsetGivesZeroNumerator(ray: Ray, point: Point)
    requires ray.Valid() && point.Rank() == ray.Rank() && Dot(ray.offset.elements, ray.offset.elements) == 0.0
    ensures Dot(Difference(point.elements, ray.origin.elements), ray.offset.elements) == 0.0
  {
    ZeroNormDot(ray.offset.elements, Difference(point.elements, ray.origin.elements));
    DotSymmetric(ray.offset.elements, Difference(point.elements, ray.origin.elements));
  }

  /** The tolerance snap moves the parameter by at most EPSILON from its clamp to [0, 1]. */
  lemma ClosestApproachNearClamp(ray: Ray, point: Point)
    requires ray.Valid() && point.Rank() == ray.Rank() && Dot(ray.offset.elements, ray.offset.elements) != 0.0
    ensures
      var t := Projection(ray, point);
      var clamped := if t < 0.0 then 0.0 else if t > 1.0 then 1.0 else t;
      IsEqual(ClosestApproach(ray, point).value.value, clamped, EPSILON)
  {
  }

  /** Ray.f as documented: origin + t * offset. */
  function F(ray: Ray, t: real): (r: Point)
    requires ray.Valid()
    ensures r.Rank() == ray.Rank()
    ensures forall i :: 0 <= i < ray.Rank() ==> r.elements[i] == ray.origin.elements[i] + ray.offset.elements[i] * t
  {
    Point(Sum(ray.origin.elements, Scaled(ray.offset.elements, t)))
  }

  /** The documented f runs from the origin at t = 0 to the terminus at t = 1. */
  lemma FEndpoints(ray: Ray)
    requires ray.Valid()
    ensures F(ray, 0.0) == ray.origin
    ensures F(ray, 1.0) == ray.terminus
  {
    assert F(ray, 0.0).elements == ray.origin.elements;
    assert F(ray, 1.0).elements == ray.terminus.elements;
  }

  /**
   * Ray.f as written: the scaled offset is added to the origin and then
   * added again, so the result is origin + 2t * offset.
   */
  function FAsWritten(ray: Ray, t: real): (r: Point)
    requires ray.Valid()
    ensures r.Rank() == ray.Rank()
    ensures forall i :: 0 <= i < ray.Rank() ==> r.elements[i] == ray.origin.elements[i] + 2.0 * t * ray.offset.elements[i]
  {
    var scalar := Scaled(ray.offset.elements, t);
    Point(Sum(Sum(ray.origin.elements, scalar), scalar))
  }

  /** As written, f(t) lands where the documented f(2t) does; f(1) overshoots the terminus by one offset. */
  lemma FAsWrittenDoubles(ray: Ray, t: real)
    requires ray.Valid()
    ensures FAsWritten(ray, t) == F(ray, 2.0 * t)
    ensures FAsWritten(ray, 0.5) == ray.terminus
  {
    assert FAsWritten(ray, t).elements == F(ray, 2.0 * t).elements;
    FEndpoints(ray);
    assert FAsWritten(ray, 0.5).elements == F(ray, 1.0).elements;
  }

  // ---------------------------------------------------------------------
  // Squared distances
  // ---------------------------------------------------------------------

  /**
   * Ray.euclideanDistance as written: (P - A) + t * offset, squared, with t
   * the snapped closest-approach parameter. NaN from a zero offset propagates.
   * What it measures is the squared distance from P to the mirror point f(-t)
   * on the far side of the origin, not to f(t).
   */
  function EuclideanDistanceAsWritten(ray: Ray, point: Point): (r: Result<Option<real>>)
    requires ray.Valid()
    ensures r.Success? <==> point.Rank() == ray.Rank()
    ensures r.Failure? ==> r.error == DimensionMismatch
    ensures r.Success? ==> (r.value.None? <==> Dot(ray.offset.elements, ray.offset.elements) == 0.0)
    ensures r.Success? && r.value.Some? ==>
      r.value.value >= 0.0 &&
      var q := F(ray, -ClosestApproach(ray, point).value.value).elements;
      r.value.value == Dot(Difference(point.elements, q), Difference(point.elements, q))
  {
    var approach := ClosestApproach(ray, point);
    if approach.Failure? then Failure(approach.error)
    else if approach.value.None? then Success(None)
    else
      var pa := Difference(point.elements, ray.origin.elements);
      var bat := Scaled(ray.offset.elements, approach.value.value);
      var result := Sum(pa, bat);
      DotSelfNonNegative(result);
      var mirror := F(ray, -approach.value.value).elements;
      forall i | 0 <= i < |result|
        ensures result[i] == Difference(point.elements, mirror)[i]
      {
        assert ray.offset.elements[i] * approach.value.value == -(ray.offset.elements[i] * -approach.value.value);
      }
      assert result == Difference(point.elements, mirror);
      Success(Some(Dot(result, result)))
  }

  /**
   * The evident intent of euclideanDistance: (P - A) - t * offset, squared,
   * the squared distance from P to the point f(t) of the segment.
   */
  function EuclideanDistance(ray: Ray, point: Point): (r: Result<Option<real>>)
    requires ray.Valid()
    ensures r.Success? <==> point.Rank() == ray.Rank()
    ensures r.Failure? ==> r.error == DimensionMismatch
    ensures r.Success? ==> (r.value.None? <==> Dot(ray.offset.elements, ray.offset.elements) == 0.0)
    ensures r.Success? && r.value.Some? ==>
      r.value.value >= 0.0 &&
      var q := F(ray, ClosestApproach(ray, point).value.value).elements;
      r.value.value == Dot(Difference(point.elements, q), Difference(point.elements, q))
  {
    var approach := ClosestApproach(ray, point);
    if approach.Failure? then Failure(approach.error)
    else if approach.value.None? then Success(None)
    else
      var pa := Difference(point.elements, ray.origin.elements);
      var bat := Scaled(ray.offset.elements, approach.value.value);
      var result := Difference(pa, bat);
      DotSelfNonNegative(result);
      assert result == Difference(point.elements, F(ray, approach.value.value).elements);
      Success(Some(Dot(result, result)))
  }

  /** A dot product with an all-zero left operand is zero. */
  lemma {:induction false} DotZeroLeft(a: seq<real>, b: seq<real>)
    requires |a| == |b| && forall i :: 0 <= i < |a| ==> a[i] == 0.0
    ensures Dot(a, b) == 0.0
  {
    if |a| > 0 {
      DotZeroLeft(a[..|a| - 1], b[..|b| - 1]);
    }
  }

  /** With the intended formula, both endpoints of a non-degenerate ray are at distance zero. */
  lemma EndpointsAtDistanceZero(ray: Ray)
    requires ray.Valid() && Dot(ray.offset.elements, ray.offset.elements) != 0.0
    ensures EuclideanDistance(ray, ray.origin) == Success(Some(0.0))
    ensures EuclideanDistance(ray, ray.terminus) == Success(Some(0.0))
  {
    var d := ray.offset.elements;
    var zeroAtOrigin := Difference(ray.origin.elements, ray.origin.elements);
    DotZeroLeft(zeroAtOrigin, d);
    assert Projection(ray, ray.origin) == 0.0;
    FEndpoints(ray);
    var r0 := Difference(ray.origin.elements, F(ray, 0.0).elements);
    DotZeroLeft(r0, r0);
    assert Difference(ray.terminus.elements, ray.origin.elements) == d;
    assert Projection(ray, ray.terminus) == 1.0;
    var r1 := Difference(ray.terminus.elements, F(ray, 1.0).elements);
    DotZeroLeft(r1, r1);
  }

  /**
   * With the intended formula, every point f(s) of the segment that lies
   * more than EPSILON inside both endpoints is at distance zero: its
   * projection parameter is s itself and escapes the snap.
   */
  lemma InteriorAtDistanceZero(ray: Ray, s: real)
    requires ray.Valid() && Dot(ray.offset.elements, ray.offset.elements) != 0.0
    requires EPSILON < s < 1.0 - EPSILON
    ensures EuclideanDistance(ray, F(ray, s)) == Success(Some(0.0))
  {
    var d := ray.offset.elements;
    var p := F(ray, s);
    assert Difference(p.elements, ray.origin.elements) == Scaled(d, s);
    DotScaledLeft(d, s, d);
    assert Projection(ray, p) == s;
    var residual := Difference(p.elements, F(ray, s).elements);
    DotZeroLeft(residual, residual);
  }

  /** The 2-D ray from (0,0) with offset (2,0) and its terminus (2,0): 16 as written, 0 as intended. */
  lemma EuclideanDistanceAtTerminus()
    ensures EuclideanDistanceAsWritten(Ray(Point([0.0, 0.0]), Point([2.0, 0.0]), Vector([2.0, 0.0]), false), Point([2.0, 0.0]))
         == Success(Some(16.0))
    ensures EuclideanDistance(Ray(Point([0.0, 0.0]), Point([2.0, 0.0]), Vector([2.0, 0.0]), false), Point([2.0, 0.0]))
         == Success(Some(0.0))
  {
    var ray := Ray(Point([0.0, 0.0]), Point([2.0, 0.0]), Vector([2.0, 0.0]), false);
    var p := Point([2.0, 0.0]);
    assert ray.terminus.elements == Sum(ray.origin.elements, ray.offset.elements);
    DotPair(ray.offset.elements, ray.offset.elements);
    var pa := Difference(p.elements, ray.origin.elements);
    assert pa == [2.0, 0.0];
    DotPair(pa, ray.offset.elements);
    assert Projection(ray, p) == 1.0;
    var result := Sum(pa, Scaled(ray.offset.elements, 1.0));
    assert result == [4.0, 0.0];
    DotPair(result, result);
    EndpointsAtDistanceZero(ray);
  }

  /** The offset's squared length is not above EPSILON, so calculateEuclideanDistance refuses the ray. */
  predicate Degenerate(ray: Ray) {
    !IsGreaterThan(Dot(ray.offset.elements, ray.offset.elements), 0.0, EPSILON)
  }

  /** The squared distance from P to the point origin + s * offset of the carrier line. */
  function SquaredDistanceAt(ray: Ray, point: Point, s: real): real
    requires ray.Valid() && point.Rank() == ray.Rank()
  {
    var w := Sum(Difference(ray.origin.elements, point.elements), Scaled(ray.offset.elements, s));
    Dot(w, w)
  }

  /**
   * Ray.calculateEuclideanDistance: with displacement A - P and
   * t = -(A - P) . offset / |offset|^2, the squared length of
   * (A - P) + t * offset, the squared distance from P to the carrier line.
   */
  function CalculateEuclideanDistance(ray: Ray, point: Point): (r: Result<real>)
    requires ray.Valid()
    ensures r.Success? <==> point.Rank() == ray.Rank() && !Degenerate(ray)
    ensures r.Failure? ==> r.error == if point.Rank() != ray.Rank() then DimensionMismatch else DegenerateOffset
    ensures r.Success? ==> r.value >= 0.0
  {
    if point.Rank() != ray.Rank() then Failure(DimensionMismatch)
    else
      var displacement := Difference(ray.origin.elements, point.elements);
      var offsetNorm := Dot(ray.offset.elements, ray.offset.elements);
      if !IsGreaterThan(offsetNorm, 0.0, EPSILON) then Failure(DegenerateOffset)
      else
        var t := Dot(Negation(displacement), ray.offset.elements) / offsetNorm;
        var distance := Sum(displacement, Scaled(ray.offset.elements, t));
        DotSelfNonNegative(distance);
        Success(Dot(distance, distance))
  }

  /** |a + b|^2 == |a|^2 + 2 (a . b) + |b|^2 */
  lemma DotSumSquare(a: seq<real>, b: seq<real>)
    requires |a| == |b|
    ensures Dot(Sum(a, b), Sum(a, b)) == Dot(a, a) + 2.0 * Dot(a, b) + Dot(b, b)
  {
    var u := Sum(a, b);
    DotSumLeft(a, b, u);
    DotSymmetric(a, u);
    DotSymmetric(b, u);
    DotSumLeft(a, b, a);
    DotSumLeft(a, b, b);
    DotSymmetric(a, b);
  }

  /** Moving along the offset by s splits as moving by t and then by s - t. */
  lemma ShiftSplits(w: seq<real>, d: seq<real>, t: real, s: real)
    requires |w| == |d|
    ensures Sum(w, Scaled(d, s)) == Sum(Sum(w, Scaled(d, t)), Scaled(d, s - t))
  {
    var lhs, rhs := Sum(w, Scaled(d, s)), Sum(Sum(w, Scaled(d, t)), Scaled(d, s - t));
    forall i | 0 <= i < |w|
      ensures lhs[i] == rhs[i]
    {
      assert d[i] * s == d[i] * t + d[i] * (s - t);
    }
  }

  /**
   * The residual (A - P) + t * offset that calculateEuclideanDistance
   * squares is perpendicular to the offset: t is the foot of the
   * perpendicular from P.
   */
  lemma ResidualIsPerpendicular(ray: Ray, point: Point)
    requires ray.Valid() && point.Rank() == ray.Rank() && !Degenerate(ray)
    ensures
      var w := Difference(ray.origin.elements, point.elements);
      var d := ray.offset.elements;
      var t := Dot(Negation(w), d) / Dot(d, d);
      Dot(Sum(w, Scaled(d, t)), d) == 0.0
  {
    var w := Difference(ray.origin.elements, point.elements);
    var d := ray.offset.elements;
    var dd := Dot(d, d);
    var t := Dot(Negation(w), d) / dd;
    DotNegationRight(d, w);
    DotSymmetric(d, Negation(w));
    DotSymmetric(d, w);
    assert t * dd == -Dot(w, d);
    DotSumLeft(w, Scaled(d, t), d);
    DotScaledLeft(d, t, d);
  }

  /**
   * calculateEuclideanDistance is the least squared distance from P to any
   * point origin + s * offset of the carrier line (Pythagoras on the
   * perpendicular residual).
   */
  lemma CalculatedDistanceIsMinimal(ray: Ray, point: Point, s: real)
    requires ray.Valid() && point.Rank() == ray.Rank() && !Degenerate(ray)
    ensures CalculateEuclideanDistance(ray, point).value <= SquaredDistanceAt(ray, point, s)
  {
    var w := Difference(ray.origin.elements, point.elements);
    var d := ray.offset.elements;
    var t := Dot(Negation(w), d) / Dot(d, d);
    var residual := Sum(w, Scaled(d, t));
    var step := Scaled(d, s - t);
    ResidualIsPerpendicular(ray, point);
    ShiftSplits(w, d, t, s);
    DotSumSquare(residual, step);
    DotScaledLeft(d, s - t, residual);
    DotSymmetric(d, residual);
    DotSymmetric(step, residual);
    DotSelfNonNegative(step);
  }

  /**
   * The bound of CalculatedDistanceIsMinimal is reached: the result is the
   * squared distance from P to the point of the carrier line at P's
   * projection parameter, so it is the squared distance to the line.
   */
  lemma CalculatedDistanceIsAttained(ray: Ray, point: Point)
    requires ray.Valid() && point.Rank() == ray.Rank() && !Degenerate(ray)
    ensures CalculateEuclideanDistance(ray, point).value == SquaredDistanceAt(ray, point, Projection(ray, point))
  {
    assert Negation(Difference(ray.origin.elements, point.elements)) == Difference(point.elements, ray.origin.elements);
  }

  // ---------------------------------------------------------------------
  // Nearest points
  // ---------------------------------------------------------------------

  /** Every point of the collection shares the ray's rank. */
  predicate SameRank(ray: Ray, points: seq<Point>) {
    forall i :: 0 <= i < |points| ==> points[i].Rank() == ray.Rank()
  }

  /** The squared distance findNearest compares, for a point it accepts. */
  function Distance(ray: Ray, point: Point): real
    requires ray.Valid() && point.Rank() == ray.Rank() && !Degenerate(ray)
  {
    CalculateEuclideanDistance(ray, point).value
  }

  /**
   * The running (minimum, nearest set) after visiting `points` in order:
   * the first point seeds both; a point more than EPSILON below the minimum
   * replaces them; a point within EPSILON of the minimum joins the set.
   */
  function Scan(ray: Ray, points: seq<Point>): (real, set<Point>)
    requires ray.Valid() && !Degenerate(ray) && |points| > 0 && SameRank(ray, points)
    decreases |points|
  {
    var p := points[|points| - 1];
    var d := Distance(ray, p);
    if |points| == 1 then (d, {p})
    else
      var (minDistance, nearest) := Scan(ray, points[..|points| - 1]);
      if IsLessThan(d, minDistance, EPSILON) then (d, {p})
      else if IsEqual(d, minDistance, EPSILON) then (minDistance, nearest + {p})
      else (minDistance, nearest)
  }

  /**
   * What findNearest promises: the set is a non-empty subset of the input,
   * each member's distance is within EPSILON of the final minimum, and no
   * input point lies more than EPSILON below that minimum.
   */
  lemma {:induction false} ScanIsNearest(ray: Ray, points: seq<Point>)
    requires ray.Valid() && !Degenerate(ray) && |points| > 0 && SameRank(ray, points)
    ensures Scan(ray, points).1 != {}
    ensures forall p :: p in Scan(ray, points).1 ==> p in points
    ensures forall p :: p in Scan(ray, points).1 ==> IsEqual(Distance(ray, p), Scan(ray, points).0, EPSILON)
    ensures forall i :: 0 <= i < |points| ==> Distance(ray, points[i]) >= Scan(ray, points).0 - EPSILON
  {
    var n := |points|;
    if n > 1 {
      var prefix := points[..n - 1];
      ScanIsNearest(ray, prefix);
      var (m, s) := Scan(ray, prefix);
      var d := Distance(ray, points[n - 1]);
      assert forall i :: 0 <= i < n - 1 ==> points[i] == prefix[i];
      if IsLessThan(d, m, EPSILON) {
        assert forall i :: 0 <= i < n - 1 ==> Distance(ray, points[i]) >= d - EPSILON;
      }
    }
  }

  /**
   * Ray.findNearest over the collection in iteration order. An empty
   * collection is refused; a single point is returned as it is once its
   * rank matches; otherwise every point is rank-checked and measured with
   * calculateEuclideanDistance while the running minimum and set are kept.
   */
  method FindNearest(ray: Ray, points: seq<Point>) returns (r: Result<set<Point>>)
    requires ray.Valid()
    ensures r.Success? <==> |points| > 0 && SameRank(ray, points) && (|points| == 1 || !Degenerate(ray))
    ensures r.Failure? ==>
      r.error == if |points| == 0 then EmptyInput
                 else if points[0].Rank() != ray.Rank() then DimensionMismatch
                 else if |points| > 1 && Degenerate(ray) then DegenerateOffset
                 else DimensionMismatch
    ensures r.Success? && |points| == 1 ==> r.value == {points[0]}
    ensures r.Success? && |points| > 1 ==> r.value == Scan(ray, points).1
  {
    if |points| == 0 {
      return Failure(EmptyInput);
    }
    if |points| == 1 {
      if points[0].Rank() != ray.Rank() {
        return Failure(DimensionMismatch);
      }
      return Success({points[0]});
    }
    var nearestPoints: set<Point> := {};
    var minDistance := 0.0;
    for i := 0 to |points|
      invariant SameRank(ray, points[..i])
      invariant i > 0 ==> !Degenerate(ray) && (minDistance, nearestPoints) == Scan(ray, points[..i])
    {
      if points[i].Rank() != ray.Rank() {
        return Failure(DimensionMismatch);
      }
      var distance := CalculateEuclideanDistance(ray, points[i]);
      if distance.Failure? {
        return Failure(distance.error);
      }
      assert points[..i + 1][..i] == points[..i];
      if i == 0 || IsLessThan(distance.value, minDistance, EPSILON) {
        minDistance := distance.value;
        nearestPoints := {points[i]};
      } else if IsEqual(distance.value, minDistance, EPSILON) {
        nearestPoints := nearestPoints + {points[i]};
      }
    }
    assert points[..|points|] == points;
    return Success(nearestPoints);
  }

  // ---------------------------------------------------------------------
  // Equality
  // ---------------------------------------------------------------------

  /**
   * Ray.equals as written: same rank, offsets equal by the receiver's
   * offset's equals, same origin. A Point offset only equals a Point, while
   * a Vector offset equals any Vector or Point with the same coordinates.
   */
  function EqualsAsWritten(ray: Ray, other: Ray): (r: bool)
    ensures r <==>
      ray.Rank() == other.Rank() && ray.offset == other.offset && ray.origin == other.origin &&
      (ray.offsetIsPoint ==> other.offsetIsPoint)
  {
    ray.Rank() == other.Rank() &&
    (if ray.offsetIsPoint then other.offsetIsPoint && ray.offset == other.offset else ray.offset == other.offset) &&
    ray.origin == other.origin
  }

  /** The same geometric ray built by the two factories: equal one way round only. */
  lemma EqualsAsWrittenIsAsymmetric()
    ensures
      var byTerminus := CreateFromTerminus(Some(Point([0.0, 0.0])), Some(Point([1.0, 0.0])));
      var byOffset := CreateFromOffset(Some(Point([0.0, 0.0])), Some(Vector([1.0, 0.0])), false);
      byTerminus.Success? && byOffset.Success? &&
      EqualsAsWritten(byOffset.value, byTerminus.value) && !EqualsAsWritten(byTerminus.value, byOffset.value)
  {
    var byTerminus := CreateFromTerminus(Some(Point([0.0, 0.0])), Some(Point([1.0, 0.0])));
    assert byTerminus.value.offset.elements == [1.0, 0.0];
  }

  /** A Point passed as the offset is kept as a Point, so that ray equals the one built from the terminus both ways. */
  lemma PointOffsetEqualsBothWays()
    ensures
      var byTerminus := CreateFromTerminus(Some(Point([0.0, 0.0])), Some(Point([1.0, 0.0])));
      var byPointOffset := CreateFromOffset(Some(Point([0.0, 0.0])), Some(Vector([1.0, 0.0])), true);
      byTerminus.Success? && byPointOffset.Success? &&
      EqualsAsWritten(byPointOffset.value, byTerminus.value) && EqualsAsWritten(byTerminus.value, byPointOffset.value)
  {
    var byTerminus := CreateFromTerminus(Some(Point([0.0, 0.0])), Some(Point([1.0, 0.0])));
    assert byTerminus.value.offset.elements == [1.0, 0.0];
  }

  /** Ray equality by value, as a symmetric equals would have it: rank, offset and origin. */
  function Equals(ray: Ray, other: Ray): (r: bool)
    ensures r <==> ray.Rank() == other.Rank() && ray.offset == other.offset && ray.origin == other.origin
  {
    ray.Rank() == other.Rank() && ray.offset == other.offset && ray.origin == other.origin
  }

  /** Equality by value is symmetric, and agrees with the written equals whenever the offsets share a class. */
  lemma EqualsSymmetric(ray: Ray, other: Ray)
    ensures Equals(ray, other) == Equals(other, ray)
    ensures ray.offsetIsPoint == other.offsetIsPoint ==> EqualsAsWritten(ray, other) == Equals(ray, other)
  {
  }
}
