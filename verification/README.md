# eli-braire kernel in Dafny

This project models two independent parts of the eli-braire Java library.

**Linear-algebra and geometry kernel**
- `Vector`, `Point` and `Matrix` are fixed-rank values. Each is built by a `create` factory that validates its input first. Every operation allocates a fresh result.
- `Line` has a planar side test (`sign`) and a planar segment-intersection test (`intersects3d`).
- `Ray` has:
  - a tolerance-snapped projection parameter (`closestApproach`);
  - squared distances (`euclideanDistance`, `calculateEuclideanDistance`);
  - a nearest-points scan (`findNearest`).
- `Face` is a triangle with a strict point-in-triangle test and a triangle-overlap test.

**Character trie**
- A `TrieNode` holds one character and a lazily created map from the next character to its child.
- A `TrieCache` holds the map of first characters. Its `insertWord` follows the existing branch as far as the word matches, then grows a chain of fresh nodes.

## Modelling notes

**Values and loops**
- Immutable values are datatypes: `Vector`, `Point`, `Matrix`, `Line`, `Ray` and `Face`.
- Operations that fill a fresh array in a loop are methods. Each keeps its loop over a local `array` or `array2`. It is proved against a specification function on sequences, such as `Sum`, `Difference`, `Scaled`, `Dot`, `Transposed` or `Product`.
- Coordinates are exact `real`s. The shared tolerance is `EPSILON = 1e-7`.

**Failures and null**
- A precondition failure from the validation library, or a Java runtime exception, becomes `Failure(fault)`.
- A Java `null` argument is `None`.
- The NaN that `0/0` produces for a zero ray offset is also `None`.

**Tolerance predicates**
- The validation library `eli.veritas.Verifier` is not part of this model. Its tolerance predicates are given an explicit meaning in `tolerance.dfy`:
  - `isEqual(a, b, e)` is `|a - b| <= e`;
  - `isLessThan(a, b, e)` is `a < b - e`;
  - `isGreaterThan(a, b, e)` is `a > b + e`;
  - the two "or equal" forms allow `e` of slack.

**Which `d` the model uses**
- `Vector.d` is 1-based.
- `Point.d` checks the 1-based range, but its body reads `elements[dimension]`.
- Every geometric caller assumes `d(1) = x` and `d(2) = y`. The model therefore uses the 1-based meaning everywhere (`Points.D`, `Lines.X`, `Lines.Y`).
- The body as written is `Points.DAsWritten`. Its consequences are recorded under "## Findings".

**Vector.java**
- Every line of `Vector.java` is commented out, but it is the only definition of `Vector` that the live code uses. It is modelled from that text.

**Where the code is incomplete or departs from its evident intent**
- The model does what the code does:
  - `Line.intersects` (Line.java:43-47) has no Javadoc. Its body is a TODO that returns false for every pair of lines.
  - `Face.intersects` (Face.java:58-66) therefore reduces to `isInside`, because `areSegmentsCrossing` never finds a crossing.
  - `Cache.removeWord` and `Cache.parseWord` carry only `@param` and `@return` tags in their Javadoc (Cache.java:17-26). The bodies in TrieCache.java:80-93 do nothing and return null.
- `Face.contains` (Face.java:45-56) has no Javadoc, and its loop needs all three edge signs to be negative. Under `Line.sign`'s convention, that happens only for triangles listed clockwise. This is proved as `Faces.ContainsImpliesClockwise` and shown on an example in `Faces.ContainsDependsOnWinding`. `Faces.Contains`, `isInside` and `intersects` keep that behaviour, as the code does. The winding-free test `Faces.ContainsAnyWinding` is listed under "## Findings".

**Trie**
- `TrieNode` is a class with a `children: Option<map<char, TrieNode>>` field, where `None` is the map that is still null.
- `TrieCache` is a class with a `root` map and a ghost footprint `Repr` of reachable nodes.
- `Walk(start, s, repr)` is the reference walk: it follows the child for each character of `s` until one is missing.
- `Matched(w)` is the reference walk along `w[1..]` from the root entry for `w[0]`. `BranchEnd(w)` is the node where it stops.
- `Stored(w)` holds when `Matched(w)` spells all of `w[1..]`.
- `insertWord` is split the way its body branches:
  - `AttachChain`: the first character is new;
  - `ExtendBranch`: the first character is known;
  - `MatchBranch`: the `root.put` and `parseSuffix` of that branch;
  - `HangChain`: the `root.put` of the first branch, for a chain built by `TrieNode.create`;
  - `GrowBranch` and `GrowLoop`: the growing loop;
  - `GrowStep`: the body of that loop, with the account of what the loop has added so far;
  - `AppendChild` and `AddLeaf`: the one `addChildNode` call in that body.
- `Chain(chain, w)` is the shape of the nodes `insertWord` adds. It has one node per character of `w`, and node i holds `w[i]`. Node i+1 is the only child of node i, and the last node has no children map.
- The twostate lemmas `EndStep`, `ChainStep` and `ChainGrows` carry the loop's account from one `addChildNode` to the next. The account says what the branch end's children are and that the added nodes form a `Chain`.

## Model

| member | source | states |
|---|---|---|
| Vectors.Create | src/main/java/eli/braire/math/space/Vector.java:41-56 | fails with NullArgument for null and EmptyInput for an empty array; otherwise the vector holds exactly the given elements, so RANK is their count |
| Vectors.D | src/main/java/eli/braire/math/space/Vector.java:87-100 | succeeds exactly for 1 <= k <= RANK and returns elements[k-1]; IndexOutOfRange otherwise |
| Vectors.CreateThenD | src/main/java/eli/braire/math/space/Vector.java:50-100 | every element of a created vector is read back by d at its 1-based position |
| Vectors.SubVector | src/main/java/eli/braire/math/space/Vector.java:102-123 | picks the listed 1-based dimensions in order; fails when the list is empty or any index is out of range |
| Vectors.Negate | src/main/java/eli/braire/math/space/Vector.java:125-137 | same rank, every element negated (the Negation of the input) |
| Vectors.Add | src/main/java/eli/braire/math/space/Vector.java:139-155 | DimensionMismatch unless the ranks agree; otherwise the elementwise Sum |
| Vectors.Subtract | src/main/java/eli/braire/math/space/Vector.java:157-173 | DimensionMismatch unless the ranks agree; otherwise the elementwise Difference |
| Vectors.Multiply | src/main/java/eli/braire/math/space/Vector.java:175-188 | same rank, every element times the scalar |
| Vectors.Divide | src/main/java/eli/braire/math/space/Vector.java:190-206 | DivisionByZero exactly when the scalar is within EPSILON of zero; otherwise every element divided by it |
| Vectors.DotProduct | src/main/java/eli/braire/math/space/Vector.java:208-224 | DimensionMismatch unless the ranks agree; otherwise the running sum of products equals Dot |
| Vectors.CrossProduct2 | src/main/java/eli/braire/math/space/Vector.java:248-261 | defined for rank 2 only; the result (y, -x) is orthogonal to the input |
| Vectors.CrossProduct3 | src/main/java/eli/braire/math/space/Vector.java:263-279 | defined when both ranks are 3; the result is orthogonal to both operands |
| Vectors.Equals | src/main/java/eli/braire/math/space/Vector.java:321-349 | true exactly when the ranks match and every element is exactly equal |
| Vectors.AddSubtractRoundTrip | src/main/java/eli/braire/math/space/Vector.java:144-173 | over exact reals, (v + w) - w == v |
| Vectors.SumCommutes | src/main/java/eli/braire/math/space/Vector.java:144-155 | v + w == w + v |
| Vectors.NegationInvolutive | src/main/java/eli/braire/math/space/Vector.java:128-137 | negating twice gives the original |
| Vectors.DotSymmetric | src/main/java/eli/braire/math/space/Vector.java:213-224 | v . w == w . v |
| Vectors.DotSelfNonNegative | src/main/java/eli/braire/math/space/Vector.java:213-224 | v . v >= 0 |
| Vectors.ZeroNormDot | src/main/java/eli/braire/math/space/Vector.java:213-224 | a vector with v . v == 0 has zero dot product with every vector |
| Vectors.DotSumLeft | src/main/java/eli/braire/math/space/Vector.java:213-224 | (a + b) . c == a . c + b . c |
| Vectors.DotScaledLeft | src/main/java/eli/braire/math/space/Vector.java:213-224 | (s a) . c == s (a . c) |
| Vectors.DotNegationRight | src/main/java/eli/braire/math/space/Vector.java:213-224 | a . (-c) == -(a . c) |
| Vectors.CrossOrthogonal | src/main/java/eli/braire/math/space/Vector.java:268-279 | the rank-3 cross product is orthogonal to its left operand |
| Points.Create | src/main/java/eli/braire/math/space/Point.java:27-40 | NullArgument for null, EmptyInput for an empty array; otherwise the point holds exactly the coordinates |
| Points.D | src/main/java/eli/braire/math/space/Point.java:51-65 | the documented accessor: succeeds exactly for 1 <= k <= RANK and returns coordinate k-1 |
| Points.DAsWritten | src/main/java/eli/braire/math/space/Point.java:60-65 | as written: the check admits 1..RANK, the read overruns at RANK, so it succeeds exactly for 1 <= k < RANK and returns elements[k] |
| Points.DAsWrittenIsShifted | src/main/java/eli/braire/math/space/Point.java:60-65 | as written, d(k) returns what the 1-based accessor returns for k + 1 |
| Points.DAsWrittenMisreadsPlane | src/main/java/eli/braire/math/space/Point.java:60-65 | on (x, y), d(1) as written yields y and d(2) fails, where the 1-based accessor yields x and y |
| Points.Add | src/main/java/eli/braire/math/space/Point.java:85-97 | DimensionMismatch unless the ranks agree, EmptyInput for rank 0; otherwise the clone updated in place is the elementwise Sum |
| Points.Subtract | src/main/java/eli/braire/math/space/Point.java:99-111 | DimensionMismatch unless the ranks agree, EmptyInput for rank 0; otherwise the clone updated in place is the elementwise Difference |
| Points.SubtractAddRoundTrip | src/main/java/eli/braire/math/space/Point.java:85-111 | over exact reals, (p - q) + q == p |
| Points.Equals | src/main/java/eli/braire/math/space/Point.java:136-160 | true exactly when the ranks match and every coordinate is exactly equal |
| Points.ToPoint | src/main/java/eli/braire/math/space/Vector.java:82-85 | Vector.toPoint keeps the coordinates; it fails only for an empty vector |
| Points.ToVector | src/main/java/eli/braire/math/space/Vector.java:31-39 | Vector.create(Point) with the 1-based accessor copies the coordinates exactly |
| Points.ToVectorAsWritten | src/main/java/eli/braire/math/space/Vector.java:31-39 | as written, the last d(i + 1) overruns, so every non-empty point is refused |
| Points.PointVectorRoundTrip | src/main/java/eli/braire/math/space/Vector.java:82-85 | converting a point to a vector and back gives the same point |
| Matrices.Create | src/main/java/eli/braire/math/space/Matrix.java:41-92 | refuses a null or empty row array, a null row, an empty first row and rows whose length differs from the first; otherwise ROWS x COLUMNS holding exactly the given entries, copied into a fresh grid |
| Matrices.CreateFromColumns | src/main/java/eli/braire/math/space/Matrix.java:52-65 | intended create(Vector...): accepts non-empty columns of one positive rank; entry [i][j] is coordinate i of column j |
| Matrices.CreateFromColumnsAsWritten | src/main/java/eli/braire/math/space/Matrix.java:94-107 | as written it always fails: two or more columns fail the shape check, and a single column fails at d(0) |
| Matrices.Identity | src/main/java/eli/braire/math/space/Matrix.java:109-127 | InvalidShape for size <= 0; otherwise size x size with 1 on the diagonal and 0 elsewhere |
| Matrices.GetElement | src/main/java/eli/braire/math/space/Matrix.java:138-154 | the documented accessor: succeeds exactly inside the 1-based ranges and returns elements[r-1][c-1] |
| Matrices.GetElementAsWritten | src/main/java/eli/braire/math/space/Matrix.java:148-154 | as written: succeeds exactly for 1 <= r < ROWS and 1 <= c < COLUMNS, returning elements[r][c] |
| Matrices.GetElementAsWrittenIsShifted | src/main/java/eli/braire/math/space/Matrix.java:148-154 | as written, getElement(r, c) is the documented entry (r + 1, c + 1) |
| Matrices.GetElementAsWrittenOnSquare | src/main/java/eli/braire/math/space/Matrix.java:148-154 | on [[a,b],[c,d]], getElement(1,1) as written is d and (2,2) fails; the documented value is a |
| Matrices.Transverse | src/main/java/eli/braire/math/space/Matrix.java:171-187 | a COLUMNS x ROWS matrix with t[i][j] = m[j][i] |
| Matrices.TransposeInvolutive | src/main/java/eli/braire/math/space/Matrix.java:171-187 | transposing twice gives the original matrix |
| Matrices.ColumnOfTransposed | src/main/java/eli/braire/math/space/Matrix.java:171-187 | column j of the transpose is row j of the original |
| Matrices.Negate | src/main/java/eli/braire/math/space/Matrix.java:269-284 | same shape, every entry negated |
| Matrices.Add | src/main/java/eli/braire/math/space/Matrix.java:286-307 | DimensionMismatch unless ROWS and COLUMNS agree; otherwise the entrywise sum |
| Matrices.Subtract | src/main/java/eli/braire/math/space/Matrix.java:309-330 | DimensionMismatch unless ROWS and COLUMNS agree; otherwise the entrywise difference |
| Matrices.Multiply | src/main/java/eli/braire/math/space/Matrix.java:332-348 | same shape, every entry times the scalar |
| Matrices.Divide | src/main/java/eli/braire/math/space/Matrix.java:350-369 | DivisionByZero exactly when the scalar is within EPSILON of zero; otherwise every entry divided |
| Matrices.Equals | src/main/java/eli/braire/math/space/Matrix.java:514-546 | true exactly when ROWS, COLUMNS and every entry are exactly equal |
| Matrices.CopyExcluding | src/main/java/eli/braire/math/space/Matrix.java:232-254 | the effectiveRow/effectiveColumn copy loop fails exactly when some entry would be written outside the result; otherwise it holds every entry outside the skipped row and column |
| Matrices.NoStrayWriteInRange | src/main/java/eli/braire/math/space/Matrix.java:232-254 | skipping a row and a column that exist never writes outside the result |
| Matrices.StrayWriteAsWritten | src/main/java/eli/braire/math/space/Matrix.java:232-254 | with the 1-based arguments compared as 0-based indices, the loop overruns exactly when the last row or column is named |
| Matrices.SubMatrix | src/main/java/eli/braire/math/space/Matrix.java:215-231 | intended, as the Javadoc documents: IndexOutOfRange unless the 1-based row and column are in range; otherwise InvalidShape unless the matrix has more than one row and more than one column; on success a non-empty (ROWS-1) x (COLUMNS-1) result holding every other entry in order |
| Matrices.SubMatrixAsWritten | src/main/java/eli/braire/math/space/Matrix.java:226-255 | as written it removes row r+1 and column c+1, and naming the last row or column fails |
| Matrices.DotProduct | src/main/java/eli/braire/math/space/Matrix.java:371-394 | intended: left COLUMNS must equal right ROWS; the accumulated result is the ROWS x right.COLUMNS matrix Product |
| Matrices.DotProductAsWritten | src/main/java/eli/braire/math/space/Matrix.java:376-394 | as written, succeeds only when ROWS <= right.COLUMNS (or an operand has no entries), else ArrayIndexOutOfBounds; every entry of row i is row i of the left dotted with column i of the right |
| Matrices.IdentityLeftNeutral | src/main/java/eli/braire/math/space/Matrix.java:109-127 | the identity is a left unit of the intended product |
| Matrices.MisindexedProductOnIdentity | src/main/java/eli/braire/math/space/Matrix.java:388 | I2 times [[1,2],[3,4]] as written is [[1,1],[4,4]], while the intended product gives the matrix back |
| Matrices.VectorProduct | src/main/java/eli/braire/math/space/Matrix.java:396-416 | intended: DimensionMismatch unless RANK == COLUMNS, EmptyInput without rows; otherwise entry i is row i dotted with the vector |
| Matrices.VectorProductAsWritten | src/main/java/eli/braire/math/space/Matrix.java:401-416 | as written the first read d(0) fails, so only a matrix without columns gets through, giving zeros |
| Matrices.PointProduct | src/main/java/eli/braire/math/space/Matrix.java:418-438 | intended: DimensionMismatch unless RANK == COLUMNS, EmptyInput without rows; otherwise coordinate i is row i dotted with the point |
| Matrices.PointProductAsWritten | src/main/java/eli/braire/math/space/Matrix.java:423-438 | as written the first read Point.d(0) fails, so only a matrix without columns gets through |
| Matrices.PointTimesMatrix | src/main/java/eli/braire/math/space/Point.java:66-83 | intended: DimensionMismatch unless ROWS == RANK; otherwise coordinate j of the result is the point dotted with column j (COLUMNS coordinates) |
| Matrices.PointTimesMatrixAsWritten | src/main/java/eli/braire/math/space/Point.java:66-83 | as written the first read getElement(0, 0) fails, so only a matrix without rows or columns gets through |
| Matrices.VectorTimesMatrixAsWritten | src/main/java/eli/braire/math/space/Vector.java:226-246 | as written the first read getElement(0, 0) fails, so only a matrix without rows or columns gets through, giving RANK zeros |
| Lines.Create | src/main/java/eli/braire/math/shape/Line.java:27-41 | NullArgument for a null endpoint and DimensionMismatch for endpoints of different rank; otherwise the line keeps both endpoints, and RANK is the origin's |
| Lines.Sign | src/main/java/eli/braire/math/shape/Line.java:70-73 | fails below rank 2; otherwise equals (o.y-t.y)(p.x-t.x) - (o.x-t.x)(p.y-t.y) |
| Lines.SignZeroAtEndpoints | src/main/java/eli/braire/math/shape/Line.java:70-73 | sign is zero at the origin and at the terminus |
| Lines.SignReversed | src/main/java/eli/braire/math/shape/Line.java:70-73 | swapping origin and terminus negates sign for every point |
| Lines.Intersects | src/main/java/eli/braire/math/shape/Line.java:43-47 | always false |
| Lines.Intersects3d | src/main/java/eli/braire/math/shape/Line.java:49-68 | with a denominator within EPSILON of zero, true exactly when both numerators are too; otherwise true exactly when both parameters lie in (0, 1] |
| Lines.ParametersMeet | src/main/java/eli/braire/math/shape/Line.java:49-68 | with a non-zero denominator the two parameters locate the same point on both carrier lines |
| Lines.Intersects3dSymmetric | src/main/java/eli/braire/math/shape/Line.java:49-68 | intersects3d does not depend on which line asks |
| Lines.DiagonalsIntersect | src/main/java/eli/braire/math/shape/Line.java:49-68 | the diagonals of the square (0,0)-(2,2) intersect |
| Lines.ParallelSegmentsDoNotIntersect | src/main/java/eli/braire/math/shape/Line.java:49-68 | the parallel segments (0,0)-(1,0) and (0,1)-(1,1) do not intersect |
| Lines.Equals | src/main/java/eli/braire/math/shape/Line.java:99-141 | true exactly when rank, origin and terminus are exactly equal |
| Rays.CreateFromOffset | src/main/java/eli/braire/math/shape/Ray.java:30-37 | refuses nulls, a rank mismatch and an empty origin; terminus = origin + offset; the offset is kept as given, including whether its runtime class is Point |
| Rays.CreateFromTerminus | src/main/java/eli/braire/math/shape/Ray.java:39-46 | refuses nulls, a rank mismatch and an empty origin; offset = terminus - origin |
| Rays.ClosestApproach | src/main/java/eli/braire/math/shape/Ray.java:48-75 | DimensionMismatch on a rank mismatch; NaN (None) exactly for a zero offset; otherwise a value in [0, 1]: 1 when the parameter is at least 1 within EPSILON, 0 when at most 0 within EPSILON, the parameter itself otherwise |
| Rays.ZeroOffsetGivesZeroNumerator | src/main/java/eli/braire/math/shape/Ray.java:60-75 | a zero offset makes the numerator zero as well, so the quotient is 0/0 |
| Rays.ClosestApproachNearClamp | src/main/java/eli/braire/math/shape/Ray.java:48-75 | the snapped value is within EPSILON of the parameter clamped to [0, 1] |
| Rays.F | src/main/java/eli/braire/math/shape/Ray.java:77-83 | as documented: f(t) = origin + t * offset, of the ray's rank |
| Rays.FEndpoints | src/main/java/eli/braire/math/shape/Ray.java:77-83 | the documented f gives the origin at 0 and the terminus at 1 |
| Rays.FAsWritten | src/main/java/eli/braire/math/shape/Ray.java:84-91 | as written: origin + 2t * offset |
| Rays.FAsWrittenDoubles | src/main/java/eli/braire/math/shape/Ray.java:84-91 | as written, f(t) is the documented f(2t), and f(0.5) is the terminus |
| Rays.EuclideanDistanceAsWritten | src/main/java/eli/braire/math/shape/Ray.java:100-109 | as written: the result is never negative and NaN exactly for a zero offset; its value is the squared distance from P to the mirror point f(-t), on the far side of the origin, for the snapped closest-approach t, because the scaled offset is added to P - A instead of subtracted |
| Rays.EuclideanDistance | src/main/java/eli/braire/math/shape/Ray.java:93-99 | intended: the squared distance from P to f(t) for the snapped closest-approach t |
| Rays.EndpointsAtDistanceZero | src/main/java/eli/braire/math/shape/Ray.java:93-99 | with the intended formula, both endpoints are at distance zero |
| Rays.InteriorAtDistanceZero | src/main/java/eli/braire/math/shape/Ray.java:93-99 | with the intended formula, every point f(s) of the segment with EPSILON < s < 1 - EPSILON is at distance zero. A point of the segment within EPSILON of an endpoint is snapped to that endpoint, so its distance is small but not exactly zero |
| Rays.EuclideanDistanceAtTerminus | src/main/java/eli/braire/math/shape/Ray.java:100-109 | for the ray (0,0) with offset (2,0) and the point (2,0), the result is 16 as written and 0 as intended |
| Rays.CalculateEuclideanDistance | src/main/java/eli/braire/math/shape/Ray.java:143-153 | DimensionMismatch on a rank mismatch; DegenerateOffset unless offset . offset > EPSILON; otherwise a non-negative value, which CalculatedDistanceIsMinimal and CalculatedDistanceIsAttained pin down as the squared distance from P to the carrier line |
| Rays.ResidualIsPerpendicular | src/main/java/eli/braire/math/shape/Ray.java:143-153 | the residual (A - P) + t * offset is perpendicular to the offset |
| Rays.CalculatedDistanceIsMinimal | src/main/java/eli/braire/math/shape/Ray.java:143-153 | the result is no more than the squared distance from P to any point origin + s * offset of the carrier line |
| Rays.CalculatedDistanceIsAttained | src/main/java/eli/braire/math/shape/Ray.java:143-153 | the result equals the squared distance from P to the point of the carrier line at P's projection parameter, so the bound of CalculatedDistanceIsMinimal is reached |
| Rays.ScanIsNearest | src/main/java/eli/braire/math/shape/Ray.java:121-140 | the selected set is a non-empty subset of the input; each member is within EPSILON of the final minimum, and no input point lies more than EPSILON below it |
| Rays.FindNearest | src/main/java/eli/braire/math/shape/Ray.java:111-141 | EmptyInput for no points, DimensionMismatch for a point of another rank, DegenerateOffset for several points and a degenerate offset; a single point is returned as it is; otherwise the loop's set equals the reference Scan, whose nearest-within-EPSILON meaning ScanIsNearest proves |
| Rays.EqualsAsWritten | src/main/java/eli/braire/math/shape/Ray.java:179-221 | as written: same rank and origin, with offsets compared by the receiver's class (a Point offset equals only a Point) |
| Rays.EqualsAsWrittenIsAsymmetric | src/main/java/eli/braire/math/shape/Ray.java:179-221 | the same ray built by the two factories is equal one way round only |
| Rays.Equals | src/main/java/eli/braire/math/shape/Ray.java:179-221 | intended: equal rank, offset coordinates and origin |
| Rays.EqualsSymmetric | src/main/java/eli/braire/math/shape/Ray.java:179-221 | equality by value is symmetric and agrees with the written equals when the offsets share a class |
| Rays.PointOffsetEqualsBothWays | src/main/java/eli/braire/math/shape/Ray.java:179-221 | a ray given a Point as its offset equals the ray built from the terminus, both ways round |
| Faces.Create | src/main/java/eli/braire/math/shape/Face.java:25-43 | segments are exactly [p1->p2, p2->p3, p3->p1]; fails for nulls, mixed ranks, and ranks below 2 |
| Faces.CreateAsWritten | src/main/java/eli/braire/math/shape/Face.java:33-36 | as written the bounding-box reads go through the overriding d, so only faces of rank 3 or more can be built |
| Faces.PlanarFaceAsWrittenFails | src/main/java/eli/braire/math/shape/Face.java:33-36 | every planar triangle is refused as written, though the 1-based accessor admits it |
| Faces.Contains | src/main/java/eli/braire/math/shape/Face.java:45-56 | true exactly when sign(p) < 0 on all three edges; fails for a point below rank 2 |
| Faces.SignSum | src/main/java/eli/braire/math/shape/Face.java:45-56 | the three edge signs of any point sum to the face's orientation |
| Faces.ContainsImpliesClockwise | src/main/java/eli/braire/math/shape/Face.java:45-56 | a face contains a point only if its vertices are listed clockwise |
| Faces.ContainsDependsOnWinding | src/main/java/eli/braire/math/shape/Face.java:45-56 | (1,1) is not contained in (0,0),(4,0),(0,3), where the first sign is +4, but it is contained in the clockwise listing |
| Faces.ContainsAnyWinding | src/main/java/eli/braire/math/shape/Face.java:45-56 | corrected: fails exactly for a point below rank 2; otherwise true exactly when the written test holds for the face or for its reversed listing |
| Faces.ContainsAnyWindingIgnoresOrder | src/main/java/eli/braire/math/shape/Face.java:45-56 | the corrected test gives the same answer for both listings of a triangle |
| Faces.ContainsAnyWindingOnClockwise | src/main/java/eli/braire/math/shape/Face.java:45-56 | on a clockwise face the corrected test agrees with the written one |
| Faces.ContainsAnyWindingExample | src/main/java/eli/braire/math/shape/Face.java:45-56 | (1,1) is inside (0,0),(4,0),(0,3) for the corrected test, in both listings |
| Faces.NoVertexContained | src/main/java/eli/braire/math/shape/Face.java:45-56 | no face contains one of its own vertices |
| Faces.AreSegmentsCrossing | src/main/java/eli/braire/math/shape/Face.java:68-82 | always false, since Line.intersects is |
| Faces.IsInside | src/main/java/eli/braire/math/shape/Face.java:84-87 | true exactly when a vertex of either face is contained in the other; what the code promises about it is stated by its partners IsInsideSymmetric, ContainedVertexIntersects and NoSelfIntersection |
| Faces.Intersects | src/main/java/eli/braire/math/shape/Face.java:58-66 | equals isInside |
| Faces.IsInsideSymmetric | src/main/java/eli/braire/math/shape/Face.java:84-87 | isInside and intersects do not depend on which face asks |
| Faces.ContainedVertexIntersects | src/main/java/eli/braire/math/shape/Face.java:58-87 | a vertex of either face inside the other makes them intersect, both ways round |
| Faces.NoSelfIntersection | src/main/java/eli/braire/math/shape/Face.java:58-87 | a face does not intersect itself |
| Trie.TrieNode.constructor | src/main/java/eli/braire/algorithm/trie/TrieNode.java:20-32 | a node holding the character with no children map |
| Trie.TrieNode.GetCharacter | src/main/java/eli/braire/algorithm/trie/Node.java:13-16 | the character the node holds |
| Trie.TrieNode.GetChildNodes | src/main/java/eli/braire/algorithm/trie/TrieNode.java:73-87 | never null: empty before the first child, otherwise the children |
| Trie.TrieNode.GetChildNode | src/main/java/eli/braire/algorithm/trie/TrieNode.java:89-104 | null (None) exactly when there is no map or no child for the character; otherwise that child |
| Trie.TrieNode.AddChildNode | src/main/java/eli/braire/algorithm/trie/TrieNode.java:139-155 | returns a fresh childless node for the character, stored under it; every other child is kept |
| Trie.TrieNode.ParseSuffix | src/main/java/eli/braire/algorithm/trie/TrieNode.java:106-137 | null exactly for a null suffix; otherwise a walk down from the receiver whose keys spell a prefix of the suffix, maximal (it ends at the suffix's end or a missing child) |
| Trie.TrieNode.CreateChain | src/main/java/eli/braire/algorithm/trie/TrieNode.java:34-62 | null for null, empty for ""; otherwise one distinct fresh node per character, node i holding s[i] with node i+1 as its only child, and the last childless |
| Trie.PathPrepend | src/main/java/eli/braire/algorithm/trie/TrieNode.java:118-133 | a child under s[0] followed by a maximal walk of s[1..] from it is a maximal walk of s from the parent, the step parseSuffix recurses on |
| Trie.PathSpells | src/main/java/eli/braire/algorithm/trie/Node.java:32-41 | in a closed trie, node i of a walk holds suffix[i] |
| Trie.PathUnique | src/main/java/eli/braire/algorithm/trie/TrieNode.java:118-133 | two walks along the same string agree on their common length |
| Trie.WalkIsMaximal | src/main/java/eli/braire/algorithm/trie/TrieNode.java:118-133 | the reference walk is a walk and is maximal |
| Trie.FullPathIsWalk | src/main/java/eli/braire/algorithm/trie/TrieNode.java:118-133 | a walk covering the whole string is the reference walk |
| Trie.ChainIsPath | src/main/java/eli/braire/algorithm/trie/TrieNode.java:39-62 | the chain create(String) builds is a walk from its head spelling the rest of the string |
| Trie.AppendKeepsClosed | src/main/java/eli/braire/algorithm/trie/TrieNode.java:142-155 | adding a childless child under a new character keeps the node set closed and replaces no existing child entry |
| Trie.AttachStores | src/main/java/eli/braire/algorithm/trie/TrieCache.java:46-53 | a chain of new, distinct nodes under a new first character keeps the root map valid, stores the word and adds exactly |w| nodes |
| Trie.MaximalPathIsWalk | src/main/java/eli/braire/algorithm/trie/TrieNode.java:118-133 | in a closed trie, a maximal walk, which is what parseSuffix returns, is the reference walk |
| Trie.GrownStep | src/main/java/eli/braire/algorithm/trie/TrieCache.java:69-73 | appending a node from outside the grown set extends the account of added nodes by exactly that node |
| Trie.GrownCount | src/main/java/eli/braire/algorithm/trie/TrieCache.java:67-73 | a set grown by a tail of distinct new nodes gains exactly as many nodes as the tail is long, and they are the tail's nodes |
| Trie.TrieCache.constructor | src/main/java/eli/braire/algorithm/trie/TrieCache.java:19-30 | an empty root map and an empty trie |
| Trie.TrieCache.InsertWord | src/main/java/eli/braire/algorithm/trie/TrieCache.java:35-75 | null or "" changes nothing. Otherwise the word is stored, existing root and child entries are never replaced, and only fresh nodes are added. A new first character adds one root entry, and the matched walk with its head is a `Chain` spelling the whole word; the new nodes are exactly its nodes. For a known first character the new matched walk extends the old one. The added nodes are exactly its new part, |w| - 1 - |old match| of them. The old branch end keeps its children and gains exactly one entry, for the next character, pointing at the first new node. The new nodes form a `Chain` spelling the rest of the word. Re-inserting a stored word changes nothing |
| Trie.TrieCache.AttachChain | src/main/java/eli/braire/algorithm/trie/TrieCache.java:46-53 | the root map gains one entry, for w[0], and nothing else. It points at the head of a fresh `Chain` spelling w. The nodes added are exactly the chain's |w| nodes, the chain below the head is the matched walk, and the word is stored afterwards |
| Trie.TrieCache.ExtendBranch | src/main/java/eli/braire/algorithm/trie/TrieCache.java:54-74 | root unchanged and the word stored afterwards. The new matched walk extends the old one, and the added nodes are exactly its new part, fresh and |w| - 1 - |old match| in number. The old branch end's children become its old children plus one entry, for the next character of w, pointing at the first new node. The new part is a `Chain` spelling the rest of w, and no other node changes. Nothing changes when the word was already stored |
| Trie.TrieCache.HangChain | src/main/java/eli/braire/algorithm/trie/TrieCache.java:50-52 | hanging a `Chain` of distinct nodes from outside the trie under a new first character: the root map gains exactly that entry, the node set gains exactly the chain's |w| nodes, the trie stays closed, and the walk below the head is the chain's tail |
| Trie.TrieCache.MatchBranch | src/main/java/eli/braire/algorithm/trie/TrieCache.java:58-66 | re-putting the root entry leaves the root map and the nodes as they were; the walk found is maximal and is the reference walk, before and after |
| Trie.TrieCache.GrowBranch | src/main/java/eli/braire/algorithm/trie/TrieCache.java:67-73 | from the end of a maximal walk, the loop extends it to the whole string. The old walk is a prefix of the new one, and the added nodes are exactly the new part, fresh and one per remaining character. The end of the old walk gains exactly one child entry, for the next character, pointing at the first new node. The new part is a `Chain` spelling the rest of the string, and no other node changes |
| Trie.TrieCache.GrowLoop | src/main/java/eli/braire/algorithm/trie/TrieCache.java:67-73 | the for loop over the remaining characters: the walk covers the whole string, and the added nodes are fresh and exactly the walk's new part. The end node's children are its children before the loop plus one entry for the first new node, the new part is a `Chain`, and every other node keeps its children |
| Trie.TrieCache.GrowStep | src/main/java/eli/braire/algorithm/trie/TrieCache.java:69-73 | one loop iteration: the walk grows by one fresh node, which joins the account of added nodes, and no old node but the branch end changes. The branch end's children are its children before the loop plus the entry for the first new node. The added nodes still form a `Chain` spelling the characters consumed |
| Trie.TrieCache.AppendChild | src/main/java/eli/braire/algorithm/trie/TrieCache.java:69-73 | one addChildNode step: the walk grows by one fresh, childless node, the trie stays closed, and no child entry is replaced. The branch end's children and the `Chain` of added nodes are carried over to the longer walk |
| Trie.TrieCache.AddLeaf | src/main/java/eli/braire/algorithm/trie/TrieCache.java:72 | addChildNode on a node of the trie for a missing character: that node's children gain exactly the entry for the fresh childless child, the node set gains exactly that child, and the trie stays closed |
| Trie.ChainGrows | src/main/java/eli/braire/algorithm/trie/TrieCache.java:69-73 | a `Chain` whose last node gains a childless child as its only entry is a `Chain` one character longer |
| Trie.ChainStep | src/main/java/eli/braire/algorithm/trie/TrieCache.java:69-73 | after one addChildNode on the walk's last node, the nodes added since the branch end still form a `Chain` spelling the characters consumed |
| Trie.EndStep | src/main/java/eli/braire/algorithm/trie/TrieCache.java:69-73 | after one addChildNode, the branch end's children are still its children before the loop plus the entry for the first added node |
| Trie.TrieCache.RemoveWord | src/main/java/eli/braire/algorithm/trie/TrieCache.java:80-84 | leaves the root map and the node set unchanged |
| Trie.TrieCache.ParseWord | src/main/java/eli/braire/algorithm/trie/TrieCache.java:89-93 | always null |

## Left out

- Null arguments other than the factories' inputs and the trie's strings. Examples are a null matrix or a null point passed to an operation. These would only add a NullArgument branch to each operation.
- IEEE-754 arithmetic. Coordinates are exact reals, with no rounding, infinities or NaN. The one NaN the code relies on (0/0 for a zero ray offset) is `None`.
- `findNearest` seeds its minimum with `Double.MAX_VALUE`. The model seeds from the first point instead. The two agree while every distance stays below `Double.MAX_VALUE - EPSILON`. A distance that overflows to Infinity makes the Java method return an empty set; that case belongs to the IEEE-754 arithmetic left out above.
- The `System.out.println` in `findNearest`, and every `toString`, `hashCode` and message-formatting member. These are output and hashing only.
- The unimplemented members, which return constants or `null`:
  - `Matrix.getRank`, `inverse`, `determinant`, `echelonForm`, `reducedEchelonForm`;
  - `translate`, `scale`, `rotate`, `shear`;
  - the generalized `Vector.crossProduct(Vector...)`.
- The bounding-box corners in the `Face` constructor are computed and then never used. Only their failure behaviour is modelled (`Faces.CreateAsWritten`).
- Matrices.VectorTimesMatrixAsWritten: there is no corrected partner. The method both calls `getElement` with 0-based indices and sums every column into entry i, so its intent cannot be read from the body.
- The grids are modelled as `array2` locals whose final contents are snapshotted into sequences. Java's array-of-arrays aliasing between rows does not arise, because every row is freshly allocated.
- `Vector.clone`, `Point.clone` and `Matrix.clone`. These are copies of immutable values and indistinguishable from the original in a value model.
- The validation library `eli.veritas.Verifier` is not part of this model. Its assertions are preconditions that become `Failure` results. The meaning of its tolerance predicates is assumed as stated in `tolerance.dfy`.
- ConvexHull, Path, Complex, TypeMapper and BoundingSphere are not part of this model. They are stubs, commented out, floating-point trigonometry, or library parsing.
- Characters: `Node.getChildNode` and `Node.addChildNode` document their key as a UTF-16 code unit (Node.java:26 and 44), while a Dafny `char` is a Unicode scalar value. Words are therefore modelled as sequences of UTF-16 code units outside the surrogate range. A word holding a lone or paired surrogate code unit is not covered.
- Java's object identity for nodes is modelled by Dafny object identity. `TrieNode.getChildNodes` returns an immutable snapshot, which is the value of the map field.

## Findings

| source | as written | input that shows it | evidently intended | confidence | as-written member | corrected member |
|---|---|---|---|---|---|---|
| src/main/java/eli/braire/math/space/Point.java:64 | `d` checks 1..RANK but reads elements[dimension] | Point (x, y): d(1) gives y, d(2) overruns | elements[dimension - 1], as in Vector.d | high, not executed | Points.DAsWrittenMisreadsPlane | Points.D |
| src/main/java/eli/braire/math/space/Matrix.java:153 | `getElement` checks 1-based ranges but reads elements[r][c] | [[a,b],[c,d]]: getElement(1,1) gives d, (2,2) overruns | elements[r - 1][c - 1] | high, not executed | Matrices.GetElementAsWrittenOnSquare | Matrices.GetElement |
| src/main/java/eli/braire/math/space/Matrix.java:388 | the right operand is read at [k][i] | I2 times [[1,2],[3,4]] gives [[1,1],[4,4]] | [k][j], the matrix product | high, not executed | Matrices.MisindexedProductOnIdentity | Matrices.IdentityLeftNeutral |
| src/main/java/eli/braire/math/space/Matrix.java:103 | a column Vector is compared with an int rank | any two columns of equal rank are refused | compare each column's RANK with the first's | high, not executed | Matrices.CreateFromColumnsAsWritten | Matrices.CreateFromColumns |
| src/main/java/eli/braire/math/space/Matrix.java:62 | the constructor reads column d(iRow), with a 0-based row | a single column (1, 2): d(0) is refused | d(iRow + 1) | high, not executed | Matrices.CreateFromColumnsAsWritten | Matrices.CreateFromColumns |
| src/main/java/eli/braire/math/space/Matrix.java:234 | 0-based loop indices compared with 1-based arguments | 2x2 matrix, subMatrix(2, 2) overruns the 1x1 result | exclude row r - 1 and column c - 1 | high, not executed | Matrices.StrayWriteAsWritten | Matrices.SubMatrix |
| src/main/java/eli/braire/math/space/Matrix.java:411 | the loop reads vector.d(j) from j = 0 | any matrix with a column: d(0) is refused | d(j + 1) | high, not executed | Matrices.VectorProductAsWritten | Matrices.VectorProduct |
| src/main/java/eli/braire/math/space/Matrix.java:433 | the loop reads point.d(j) from j = 0 | any matrix with a column: d(0) is refused | d(j + 1) | high, not executed | Matrices.PointProductAsWritten | Matrices.PointProduct |
| src/main/java/eli/braire/math/space/Point.java:78 | the loop reads getElement(i, j) from (0, 0) | any non-empty matrix: getElement(0, 0) is refused | getElement(i + 1, j + 1) | high, not executed | Matrices.PointTimesMatrixAsWritten | Matrices.PointTimesMatrix |
| src/main/java/eli/braire/math/space/Vector.java:37 | the conversion reads the overriding Point.d(i + 1) | any point: the last read d(RANK) overruns | coordinate i of the point | high, not executed | Points.ToVectorAsWritten | Points.ToVector |
| src/main/java/eli/braire/math/shape/Ray.java:87-90 | the scaled offset is added twice | f(1) is terminus + offset; f(0.5) is the terminus | origin + t * offset, as documented | high, not executed | Rays.FAsWrittenDoubles | Rays.FEndpoints |
| src/main/java/eli/braire/math/shape/Ray.java:104-106 | (P - A) + t * offset is squared | ray (0,0) with offset (2,0), point (2,0): 16, not 0 | (P - A) - t * offset, the distance to f(t) | high, not executed | Rays.EuclideanDistanceAtTerminus | Rays.InteriorAtDistanceZero |
| src/main/java/eli/braire/math/shape/Face.java:33-36 | the bounding box reads the overriding Point.d(1) and d(2) | any planar triangle is refused | the 1-based d(1), d(2) | high, not executed | Faces.PlanarFaceAsWrittenFails | Faces.Create |
| src/main/java/eli/braire/math/shape/Ray.java:179-221 | offsets are compared by the receiver's offset's class | the ray from (0,0) to (1,0) built by the two factories is equal one way only | a symmetric equals | medium, not executed | Rays.EqualsAsWrittenIsAsymmetric | Rays.EqualsSymmetric |
| src/main/java/eli/braire/math/shape/Face.java:45-56 | all three edge signs must be negative, so only clockwise faces contain points | (1,1) in (0,0),(4,0),(0,3) is refused | a test that does not depend on the winding | medium, not executed | Faces.ContainsDependsOnWinding | Faces.ContainsAnyWinding |
