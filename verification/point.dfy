/**
 * Point: a location in a Euclidean space, an immutable tuple of real
 * coordinates sharing Vector's representation. `add` and `subtract` clone
 * the receiver's coordinates and update the clone in a loop.
 *
 * The overriding accessor `Point.d` checks the 1-based range but then
 * indexes without subtracting one. `DAsWritten` models that body; `D` is the
 * 1-based accessor every geometric caller relies on (d(1) = x, d(2) = y),
 * and it is the one the rest of the model uses.
 */
module Points {
  import opened Wrappers
  import opened Vectors

  datatype Point = Point(elements: seq<real>) {
    /** The number of dimensions (RANK). */
    function Rank(): nat { |elements| }
  }

  /** Point.create: rejects a null or empty coordinate array. */
  function Create(coordinates: Option<seq<real>>): (r: Result<Point>)
    ensures r.Success? <==> coordinates.Some? && |coordinates.value| > 0
    ensures r.Success? ==> r.value.elements == coordinates.value
    ensures coordinates.None? ==> r == Failure(NullArgument)
    ensures coordinates == Some([]) ==> r == Failure(EmptyInput)
  {
    match coordinates
    case None => Failure(NullArgument)
    case Some(c) => if |c| == 0 then Failure(EmptyInput) else Success(Point(c))
  }

  /** The documented 1-based accessor: d(k) is the k-th coordinate, as Vector.d reads it. */
  function D(p: Point, dimension: int): (r: Result<real>)
    ensures r.Success? <==> 1 <= dimension <= p.Rank()
    ensures r.Success? ==> r.value == p.elements[dimension - 1]
    ensures r.Failure? ==> r.error == IndexOutOfRange
  {
    Vectors.D(Vector(p.elements), dimension)
  }

  /**
   * Point.d as written: the range check admits 1..RANK, then the body reads
   * elements[dimension], which overruns the array for dimension == RANK.
   */
  function DAsWritten(p: Point, dimension: int): (r: Result<real>)
    ensures r.Success? <==> 1 <= dimension < p.Rank()
    ensures r.Success? ==> r.value == p.elements[dimension]
    ensures r.Failure? ==>
      r.error == (if 1 <= dimension <= p.Rank() then ArrayIndexOutOfBounds else IndexOutOfRange)
  {
    if !(1 <= dimension <= p.Rank()) then Failure(IndexOutOfRange)
    else if dimension < p.Rank() then Success(p.elements[dimension])
    else Failure(ArrayIndexOutOfBounds)
  }

  /** As written, d(k) returns what the 1-based accessor returns for k + 1. */
  lemma DAsWrittenIsShifted(p: Point, k: int)
    requires 1 <= k < p.Rank()
    ensures DAsWritten(p, k) == D(p, k + 1)
  {
  }

  /** On a planar point, d(1) as written yields y instead of x, and d(2) fails. */
  lemma DAsWrittenMisreadsPlane(x: real, y: real)
    ensures DAsWritten(Point([x, y]), 1) == Success(y)
    ensures DAsWritten(Point([x, y]), 2) == Failure(ArrayIndexOutOfBounds)
    ensures D(Point([x, y]), 1) == Success(x) && D(Point([x, y]), 2) == Success(y)
  {
  }

  /** Point.add: clone the receiver's coordinates and add the other point's in place. */
  method Add(p: Point, q: Point) returns (r: Result<Point>)
    ensures r.Success? <==> p.Rank() == q.Rank() && p.Rank() > 0
    ensures r.Failure? ==>
      r.error == (if p.Rank() != q.Rank() then DimensionMismatch else EmptyInput)
    ensures r.Success? ==>
      r.value.Rank() == p.Rank() &&
      (forall i :: 0 <= i < p.Rank() ==> r.value.elements[i] == p.elements[i] + q.elements[i]) &&
      r.value.elements == Sum(p.elements, q.elements)
  {
    if q.Rank() != p.Rank() {
      return Failure(DimensionMismatch);
    }
    var a := new real[p.Rank()](i requires 0 <= i < p.Rank() => p.elements[i]);
    for i := 0 to p.Rank()
      invariant forall k :: 0 <= k < i ==> a[k] == p.elements[k] + q.elements[k]
      invariant forall k :: i <= k < p.Rank() ==> a[k] == p.elements[k]
    {
      a[i] := a[i] + q.elements[i];
    }
    r := Create(Some(a[..]));
  }

  /** Point.subtract: clone the receiver's coordinates and subtract the other point's in place. */
  method Subtract(p: Point, q: Point) returns (r: Result<Point>)
    ensures r.Success? <==> p.Rank() == q.Rank() && p.Rank() > 0
    ensures r.Failure? ==>
      r.error == (if p.Rank() != q.Rank() then DimensionMismatch else EmptyInput)
    ensures r.Success? ==>
      r.value.Rank() == p.Rank() &&
      (forall i :: 0 <= i < p.Rank() ==> r.value.elements[i] == p.elements[i] - q.elements[i]) &&
      r.value.elements == Difference(p.elements, q.elements)
  {
    if q.Rank() != p.Rank() {
      return Failure(DimensionMismatch);
    }
    var a := new real[p.Rank()](i requires 0 <= i < p.Rank() => p.elements[i]);
    for i := 0 to p.Rank()
      invariant forall k :: 0 <= k < i ==> a[k] == p.elements[k] - q.elements[k]
      invariant forall k :: i <= k < p.Rank() ==> a[k] == p.elements[k]
    {
      a[i] := a[i] - q.elements[i];
    }
    r := Create(Some(a[..]));
  }

  /** Over exact reals, subtracting a point and adding it back gives the original. */
  lemma SubtractAddRoundTrip(p: seq<real>, q: seq<real>)
    requires |p| == |q|
    ensures Sum(Difference(p, q), q) == p
  {
  }

  /** Point.equals: same rank and every coordinate exactly equal (no tolerance). */
  function Equals(p: Point, q: Point): (r: bool)
    ensures r <==> p.Rank() == q.Rank() && forall i :: 0 <= i < p.Rank() ==> p.elements[i] == q.elements[i]
  {
    Vectors.Equals(Vector(p.elements), Vector(q.elements))
  }

  /** Vector.toPoint: the same coordinates as a point; fails only for an empty vector. */
  function ToPoint(v: Vector): (r: Result<Point>)
    ensures r.Success? <==> v.Rank() > 0
    ensures r.Success? ==> r.value.elements == v.elements
  {
    Create(Some(v.elements))
  }

  /**
   * Vector.create(Point) with the 1-based accessor: coordinate i of the
   * vector is d(i + 1) of the point.
   */
  method ToVector(p: Point) returns (v: Vector)
    ensures v.elements == p.elements
  {
    var a := new real[p.Rank()];
    for i := 0 to p.Rank()
      invariant forall k :: 0 <= k < i ==> a[k] == p.elements[k]
    {
      var c := D(p, i + 1);
      a[i] := c.value;
    }
    v := Vector(a[..]);
  }

  /**
   * Vector.create(Point) as written: the loop calls the overriding d(i + 1),
   * which overruns the array on its last iteration, so every non-empty point
   * is refused.
   */
  method ToVectorAsWritten(p: Point) returns (r: Result<Vector>)
    ensures r.Success? <==> p.Rank() == 0
    ensures r.Success? ==> r.value.elements == []
    ensures r.Failure? ==> r.error == ArrayIndexOutOfBounds
  {
    var a := new real[p.Rank()];
    for i := 0 to p.Rank()
      invariant 0 < i ==> i < p.Rank()
      invariant forall k :: 0 <= k < i ==> a[k] == p.elements[k + 1]
    {
      var c := DAsWritten(p, i + 1);
      if c.Failure? {
        return Failure(c.error);
      }
      a[i] := c.value;
    }
    return Success(Vector(a[..]));
  }

  /** Converting a created point to a vector and back gives the same point. */
  lemma PointVectorRoundTrip(p: Point)
    requires p.Rank() > 0
    ensures ToPoint(Vector(p.elements)) == Success(p)
  {
  }
}
