/**
 * Vector: an immutable tuple of real coordinates whose RANK is its element
 * count. Every operation allocates a fresh element array, fills it in a
 * loop and wraps it in a new Vector; no operation changes an operand.
 * Coordinates are exact reals: IEEE rounding is not modelled.
 */
module Vectors {
  import opened Wrappers
  import opened Tolerance

  datatype Vector = Vector(elements: seq<real>) {
    /** The number of dimensions (RANK). */
    function Rank(): nat { |elements| }
  }

  // ---------------------------------------------------------------------
  // Specification functions on coordinate sequences
  // ---------------------------------------------------------------------

  function Sum(a: seq<real>, b: seq<real>): seq<real>
    requires |a| == |b|
  {
    seq(|a|, i requires 0 <= i < |a| => a[i] + b[i])
  }

  function Difference(a: seq<real>, b: seq<real>): seq<real>
    requires |a| == |b|
  {
    seq(|a|, i requires 0 <= i < |a| => a[i] - b[i])
  }

  function Negation(a: seq<real>): seq<real> {
    seq(|a|, i requires 0 <= i < |a| => -a[i])
  }

  function Scaled(a: seq<real>, s: real): seq<real> {
    seq(|a|, i requires 0 <= i < |a| => a[i] * s)
  }

  function Quotient(a: seq<real>, s: real): seq<real>
    requires s != 0.0
  {
    seq(|a|, i requires 0 <= i < |a| => a[i] / s)
  }

  /** The dot product, accumulated from the first element to the last. */
  function Dot(a: seq<real>, b: seq<real>): real
    requires |a| == |b|
    decreases |a|
  {
    if |a| == 0 then 0.0
    else Dot(a[..|a| - 1], b[..|b| - 1]) + a[|a| - 1] * b[|b| - 1]
  }

  // ---------------------------------------------------------------------
  // Operations
  // ---------------------------------------------------------------------

  /** Vector.create(double...): rejects a null or empty element array. */
  function Create(elements: Option<seq<real>>): (r: Result<Vector>)
    ensures r.Success? <==> elements.Some? && |elements.value| > 0
    ensures r.Success? ==> r.value.elements == elements.value && r.value.Rank() == |elements.value|
    ensures elements.None? ==> r == Failure(NullArgument)
    ensures elements == Some([]) ==> r == Failure(EmptyInput)
  {
    match elements
    case None => Failure(NullArgument)
    case Some(e) => if |e| == 0 then Failure(EmptyInput) else Success(Vector(e))
  }

  /** Vector.d: the 1-based coordinate accessor. */
  function D(v: Vector, dimension: int): (r: Result<real>)
    ensures r.Success? <==> 1 <= dimension <= v.Rank()
    ensures r.Success? ==> r.value == v.elements[dimension - 1]
    ensures r.Failure? ==> r.error == IndexOutOfRange
  {
    if 1 <= dimension <= v.Rank() then Success(v.elements[dimension - 1])
    else Failure(IndexOutOfRange)
  }

  /** Every coordinate of a created vector is read back by `D` at its 1-based position. */
  lemma CreateThenD(elements: seq<real>, k: int)
    requires 1 <= k <= |elements|
    ensures Create(Some(elements)).Success?
    ensures D(Create(Some(elements)).value, k) == Success(elements[k - 1])
  {
  }

  /** Vector.subVector: picks the listed 1-based dimensions, in order. */
  method SubVector(v: Vector, dimensions: seq<int>) returns (r: Result<Vector>)
    ensures r.Success? <==>
      0 < |dimensions| <= v.Rank() && forall i :: 0 <= i < |dimensions| ==> 1 <= dimensions[i] <= v.Rank()
    ensures r.Success? ==>
      r.value.Rank() == |dimensions| &&
      forall i :: 0 <= i < |dimensions| ==> r.value.elements[i] == v.elements[dimensions[i] - 1]
    ensures r.Failure? ==>
      r.error == (if |dimensions| == 0 then EmptyInput
                  else if |dimensions| > v.Rank() then DimensionMismatch
                  else IndexOutOfRange)
  {
    if |dimensions| == 0 {
      return Failure(EmptyInput);
    }
    if |dimensions| > v.Rank() {
      return Failure(DimensionMismatch);
    }
    var a := new real[|dimensions|];
    for i := 0 to |dimensions|
      invariant forall k :: 0 <= k < i ==> 1 <= dimensions[k] <= v.Rank() && a[k] == v.elements[dimensions[k] - 1]
    {
      if !(1 <= dimensions[i] <= v.Rank()) {
        return Failure(IndexOutOfRange);
      }
      a[i] := v.elements[dimensions[i] - 1];
    }
    return Success(Vector(a[..]));
  }

  /** Vector.negate */
  method Negate(v: Vector) returns (r: Vector)
    ensures r.Rank() == v.Rank()
    ensures forall i :: 0 <= i < v.Rank() ==> r.elements[i] == -v.elements[i]
    ensures r.elements == Negation(v.elements)
  {
    var a := new real[v.Rank()];
    for i := 0 to v.Rank()
      invariant forall k :: 0 <= k < i ==> a[k] == -v.elements[k]
    {
      a[i] := -v.elements[i];
    }
    r := Vector(a[..]);
  }

  /** Vector.add: equal ranks, element by element. */
  method Add(v: Vector, w: Vector) returns (r: Result<Vector>)
    ensures r.Success? <==> v.Rank() == w.Rank()
    ensures r.Failure? ==> r.error == DimensionMismatch
    ensures r.Success? ==>
      r.value.Rank() == v.Rank() &&
      (forall i :: 0 <= i < v.Rank() ==> r.value.elements[i] == v.elements[i] + w.elements[i]) &&
      r.value.elements == Sum(v.elements, w.elements)
  {
    if w.Rank() != v.Rank() {
      return Failure(DimensionMismatch);
    }
    var a := new real[v.Rank()];
    for i := 0 to v.Rank()
      invariant forall k :: 0 <= k < i ==> a[k] == v.elements[k] + w.elements[k]
    {
      a[i] := v.elements[i] + w.elements[i];
    }
    return Success(Vector(a[..]));
  }

  /** Vector.subtract: equal ranks, element by element. */
  method Subtract(v: Vector, w: Vector) returns (r: Result<Vector>)
    ensures r.Success? <==> v.Rank() == w.Rank()
    ensures r.Failure? ==> r.error == DimensionMismatch
    ensures r.Success? ==>
      r.value.Rank() == v.Rank() &&
      (forall i :: 0 <= i < v.Rank() ==> r.value.elements[i] == v.elements[i] - w.elements[i]) &&
      r.value.elements == Difference(v.elements, w.elements)
  {
    if w.Rank() != v.Rank() {
      return Failure(DimensionMismatch);
    }
    var a := new real[v.Rank()];
    for i := 0 to v.Rank()
      invariant forall k :: 0 <= k < i ==> a[k] == v.elements[k] - w.elements[k]
    {
      a[i] := v.elements[i] - w.elements[i];
    }
    return Success(Vector(a[..]));
  }

  /** Vector.multiply: scales every element. */
  method Multiply(v: Vector, scalar: real) returns (r: Vector)
    ensures r.Rank() == v.Rank()
    ensures forall i :: 0 <= i < v.Rank() ==> r.elements[i] == v.elements[i] * scalar
    ensures r.elements == Scaled(v.elements, scalar)
  {
    var a := new real[v.Rank()];
    for i := 0 to v.Rank()
      invariant forall k :: 0 <= k < i ==> a[k] == v.elements[k] * scalar
    {
      a[i] := v.elements[i] * scalar;
    }
    assert forall k :: 0 <= k < v.Rank() ==> a[..][k] == Scaled(v.elements, scalar)[k];
    r := Vector(a[..]);
  }

  /** Vector.divide: refuses a scalar within 1e-7 of zero. */
  method Divide(v: Vector, scalar: real) returns (r: Result<Vector>)
    ensures r.Success? <==> !IsEqual(scalar, 0.0, EPSILON)
    ensures r.Failure? ==> r.error == DivisionByZero
    ensures r.Success? ==>
      scalar != 0.0 && r.value.Rank() == v.Rank() &&
      (forall i :: 0 <= i < v.Rank() ==> r.value.elements[i] == v.elements[i] / scalar) &&
      r.value.elements == Quotient(v.elements, scalar)
  {
    if IsEqual(scalar, 0.0, EPSILON) {
      return Failure(DivisionByZero);
    }
    var a := new real[v.Rank()];
    for i := 0 to v.Rank()
      invariant forall k :: 0 <= k < i ==> a[k] == v.elements[k] / scalar
    {
      a[i] := v.elements[i] / scalar;
    }
    return Success(Vector(a[..]));
  }

  /** Vector.dotProduct(Vector): equal ranks, running sum of products. */
  method DotProduct(v: Vector, w: Vector) returns (r: Result<real>)
    ensures r.Success? <==> v.Rank() == w.Rank()
    ensures r.Failure? ==> r.error == DimensionMismatch
    ensures r.Success? ==> r.value == Dot(v.elements, w.elements)
  {
    if w.Rank() != v.Rank() {
      return Failure(DimensionMismatch);
    }
    var scalar := 0.0;
    for i := 0 to v.Rank()
      invariant scalar == Dot(v.elements[..i], w.elements[..i])
    {
      assert v.elements[..i + 1][..i] == v.elements[..i];
      assert w.elements[..i + 1][..i] == w.elements[..i];
      scalar := scalar + v.elements[i] * w.elements[i];
    }
    assert v.elements[..v.Rank()] == v.elements;
    assert w.elements[..w.Rank()] == w.elements;
    return Success(scalar);
  }

  /** Vector.crossProduct(): defined for rank 2 only; the result is orthogonal to the input. */
  function CrossProduct2(v: Vector): (r: Result<Vector>)
    ensures r.Success? <==> v.Rank() == 2
    ensures r.Failure? ==> r.error == DimensionMismatch
    ensures r.Success? ==>
      r.value.elements == [v.elements[1], -v.elements[0]] &&
      Dot(v.elements, r.value.elements) == 0.0
  {
    if v.Rank() != 2 then Failure(DimensionMismatch)
    else
      var c := [v.elements[1], -v.elements[0]];
      DotPair(v.elements, c);
      Success(Vector(c))
  }

  /** Vector.crossProduct(Vector): defined for two rank-3 vectors; the result is orthogonal to both. */
  function CrossProduct3(v: Vector, w: Vector): (r: Result<Vector>)
    ensures r.Success? <==> v.Rank() == 3 && w.Rank() == 3
    ensures r.Failure? ==> r.error == DimensionMismatch
    ensures r.Success? ==>
      r.value.Rank() == 3 &&
      r.value.elements[0] == v.elements[1] * w.elements[2] - v.elements[2] * w.elements[1] &&
      r.value.elements[1] == v.elements[2] * w.elements[0] - v.elements[0] * w.elements[2] &&
      r.value.elements[2] == v.elements[0] * w.elements[1] - v.elements[1] * w.elements[0] &&
      Dot(v.elements, r.value.elements) == 0.0 &&
      Dot(w.elements, r.value.elements) == 0.0
  {
    if v.Rank() != 3 || w.Rank() != 3 then Failure(DimensionMismatch)
    else
      var a, b := v.elements, w.elements;
      var c := [a[1] * b[2] - a[2] * b[1], a[2] * b[0] - a[0] * b[2], a[0] * b[1] - a[1] * b[0]];
      CrossOrthogonal(a, b, c);
      CrossOrthogonal(b, a, Negation(c));
      DotNegationRight(b, c);
      Success(Vector(c))
  }

  /** Vector.equals: same rank and every coordinate exactly equal (no tolerance). */
  function Equals(v: Vector, w: Vector): (r: bool)
    ensures r <==> v.Rank() == w.Rank() && forall i :: 0 <= i < v.Rank() ==> v.elements[i] == w.elements[i]
  {
    v == w
  }

  // ---------------------------------------------------------------------
  // Properties
  // ---------------------------------------------------------------------

  /** Over exact reals, adding then subtracting the same vector gives the original back. */
  lemma AddSubtractRoundTrip(a: seq<real>, b: seq<real>)
    requires |a| == |b|
    ensures Difference(Sum(a, b), b) == a
  {
  }

  /** Vector addition commutes. */
  lemma SumCommutes(a: seq<real>, b: seq<real>)
    requires |a| == |b|
    ensures Sum(a, b) == Sum(b, a)
  {
  }

  /** Negating twice gives the original back. */
  lemma NegationInvolutive(a: seq<real>)
    ensures Negation(Negation(a)) == a
  {
  }

  /** The dot product is symmetric. */
  lemma {:induction false} DotSymmetric(a: seq<real>, b: seq<real>)
    requires |a| == |b|
    ensures Dot(a, b) == Dot(b, a)
  {
    if |a| > 0 {
      DotSymmetric(a[..|a| - 1], b[..|b| - 1]);
    }
  }

  /** A vector's dot product with itself is never negative. */
  lemma {:induction false} DotSelfNonNegative(a: seq<real>)
    ensures Dot(a, a) >= 0.0
  {
    if |a| > 0 {
      DotSelfNonNegative(a[..|a| - 1]);
    }
  }

  /** A vector whose squared length is zero has a zero dot product with every vector. */
  lemma {:induction false} ZeroNormDot(a: seq<real>, b: seq<real>)
    requires |a| == |b| && Dot(a, a) == 0.0
    ensures Dot(a, b) == 0.0
  {
    if |a| > 0 {
      var n := |a| - 1;
      DotSelfNonNegative(a[..n]);
      SquareNonNegative(a[n]);
      assert a[n] * a[n] == 0.0;
      SquareZero(a[n]);
      ZeroNormDot(a[..n], b[..n]);
    }
  }

  /** The dot product distributes over a sum on the left. */
  lemma {:induction false} DotSumLeft(a: seq<real>, b: seq<real>, c: seq<real>)
    requires |a| == |b| == |c|
    ensures Dot(Sum(a, b), c) == Dot(a, c) + Dot(b, c)
  {
    if |a| > 0 {
      var n := |a| - 1;
      assert Sum(a, b)[..n] == Sum(a[..n], b[..n]);
      DotSumLeft(a[..n], b[..n], c[..n]);
    }
  }

  /** A scalar factor on the left comes out of the dot product. */
  lemma {:induction false} DotScaledLeft(a: seq<real>, s: real, c: seq<real>)
    requires |a| == |c|
    ensures Dot(Scaled(a, s), c) == s * Dot(a, c)
  {
    if |a| > 0 {
      var n := |a| - 1;
      assert forall k :: 0 <= k < n ==> Scaled(a, s)[..n][k] == Scaled(a[..n], s)[k];
      assert Scaled(a, s)[..n] == Scaled(a[..n], s);
      DotScaledLeft(a[..n], s, c[..n]);
      assert Scaled(a, s)[n] * c[n] == s * (a[n] * c[n]);
    }
  }

  /** Negating the right operand negates the dot product. */
  lemma {:induction false} DotNegationRight(a: seq<real>, c: seq<real>)
    requires |a| == |c|
    ensures Dot(a, Negation(c)) == -Dot(a, c)
  {
    if |a| > 0 {
      var n := |a| - 1;
      assert Negation(c)[..n] == Negation(c[..n]);
      DotNegationRight(a[..n], c[..n]);
    }
  }

  lemma SquareNonNegative(x: real)
    ensures x * x >= 0.0
  {
    if x < 0.0 {
      assert x * x == (-x) * (-x);
    }
  }

  /** A product of reals is zero only when a factor is. */
  lemma ProductZero(x: real, y: real)
    requires x * y == 0.0
    ensures x == 0.0 || y == 0.0
  {
    if x != 0.0 {
      assert y == (x * y) / x;
    }
  }

  lemma SquareZero(x: real)
    requires x * x == 0.0
    ensures x == 0.0
  {
    ProductZero(x, x);
  }

  /** The dot product of two pairs, unfolded. */
  lemma DotPair(a: seq<real>, b: seq<real>)
    requires |a| == |b| == 2
    ensures Dot(a, b) == a[0] * b[0] + a[1] * b[1]
  {
    assert a[..1][..0] == [];
    assert b[..1][..0] == [];
    assert Dot(a[..1], b[..1]) == a[0] * b[0];
  }

  /** The dot product of two triples, unfolded. */
  lemma DotTriple(a: seq<real>, b: seq<real>)
    requires |a| == |b| == 3
    ensures Dot(a, b) == a[0] * b[0] + a[1] * b[1] + a[2] * b[2]
  {
    DotPair(a[..2], b[..2]);
  }

  lemma CrossOrthogonal(a: seq<real>, b: seq<real>, c: seq<real>)
    requires |a| == |b| == |c| == 3
    requires c == [a[1] * b[2] - a[2] * b[1], a[2] * b[0] - a[0] * b[2], a[0] * b[1] - a[1] * b[0]]
    ensures Dot(a, c) == 0.0
  {
    DotTriple(a, c);
    assert a[0] * c[0] == a[0] * (a[1] * b[2]) - a[0] * (a[2] * b[1]);
    assert a[1] * c[1] == a[1] * (a[2] * b[0]) - a[1] * (a[0] * b[2]);
    assert a[2] * c[2] == a[2] * (a[0] * b[1]) - a[2] * (a[1] * b[0]);
    assert a[0] * (a[1] * b[2]) == a[1] * (a[0] * b[2]);
    assert a[0] * (a[2] * b[1]) == a[2] * (a[0] * b[1]);
    assert a[1] * (a[2] * b[0]) == a[2] * (a[1] * b[0]);
  }
}
