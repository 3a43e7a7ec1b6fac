/**
 * Matrix: an immutable row-major grid of reals with ROWS and COLUMNS fixed
 * at construction. Every operation allocates a fresh grid (here a local
 * `array2`), fills it in nested loops and wraps a snapshot of it; the
 * receiver's grid is never written after construction.
 *
 * `getElement` and the product loops that call the 1-based accessors with
 * 0-based loop indices are modelled twice: `...AsWritten` follows the body,
 * the plain name applies the evidently intended 1-based indexing.
 */
module Matrices {
  import opened Wrappers
  import opened Tolerance
  import opened Vectors
  import opened Points

  datatype Matrix = Matrix(rows: nat, columns: nat, elements: seq<seq<real>>) {
    /** The grid has ROWS rows of COLUMNS entries each. */
    predicate Valid() {
      |elements| == rows && forall i :: 0 <= i < rows ==> |elements[i]| == columns
    }
  }

  // ---------------------------------------------------------------------
  // Specification functions
  // ---------------------------------------------------------------------

  /** The rows of a two-dimensional array, read out as sequences. */
  function Snapshot(a: array2<real>): (s: seq<seq<real>>)
    reads a
    ensures |s| == a.Length0
    ensures forall i :: 0 <= i < a.Length0 ==> |s[i]| == a.Length1
    ensures forall i, j :: 0 <= i < a.Length0 && 0 <= j < a.Length1 ==> s[i][j] == a[i, j]
  {
    seq(a.Length0, i requires 0 <= i < a.Length0 reads a =>
      seq(a.Length1, j requires 0 <= j < a.Length1 reads a => a[i, j]))
  }

  /** Column `j` of `m`, top to bottom. */
  function Column(m: Matrix, j: int): seq<real>
    requires m.Valid() && 0 <= j && (m.rows == 0 || j < m.columns)
  {
    seq(m.rows, k requires 0 <= k < m.rows => m.elements[k][j])
  }

  /** The transpose: entry [i][j] is m[j][i]. */
  function Transposed(m: Matrix): Matrix
    requires m.Valid()
  {
    Matrix(m.columns, m.rows,
      seq(m.columns, i requires 0 <= i < m.columns => seq(m.rows, j requires 0 <= j < m.rows => m.elements[j][i])))
  }

  /** The n-by-n identity: 1 on the diagonal, 0 elsewhere. */
  function IdentityMatrix(n: nat): Matrix {
    Matrix(n, n, seq(n, i requires 0 <= i < n => seq(n, j requires 0 <= j < n => if i == j then 1.0 else 0.0)))
  }

  /** The matrix product: entry [i][j] is row i of `a` dotted with column j of `b`. */
  function Product(a: Matrix, b: Matrix): Matrix
    requires a.Valid() && b.Valid() && a.columns == b.rows
  {
    Matrix(a.rows, b.columns,
      seq(a.rows, i requires 0 <= i < a.rows =>
        seq(b.columns, j requires 0 <= j < b.columns => Dot(a.elements[i], Column(b, j)))))
  }

  /**
   * What Matrix.dotProduct(Matrix) computes as written: every entry of row
   * i dots row i of `a` with column i of `b`, whatever the column j.
   */
  function MisindexedProduct(a: Matrix, b: Matrix): Matrix
    requires a.Valid() && b.Valid() && a.columns == b.rows
    requires a.rows <= b.columns || b.columns == 0 || a.columns == 0
  {
    Matrix(a.rows, b.columns,
      seq(a.rows, i requires 0 <= i < a.rows =>
        seq(b.columns, j requires 0 <= j < b.columns => Dot(a.elements[i], Column(b, i)))))
  }

  /** Original index of entry `i` once index `excluded` has been removed. */
  function Skip(i: int, excluded: int): int {
    if i < excluded then i else i + 1
  }

  /** The index in the sub-matrix that original index `i` (not `excluded`) moves to. */
  function Shifted(i: int, excluded: int): int {
    if i < excluded then i else i - 1
  }

  /**
   * The copy loop of subMatrix, with 0-based rows `exRow` and columns `exCol`
   * skipped, writes original entry (i, j) outside the (ROWS-1)x(COLUMNS-1)
   * result.
   */
  predicate StrayWrite(m: Matrix, exRow: int, exCol: int, i: int, j: int) {
    0 <= i < m.rows && 0 <= j < m.columns && i != exRow && j != exCol &&
    (Shifted(i, exRow) >= m.rows - 1 || Shifted(j, exCol) >= m.columns - 1)
  }

  // ---------------------------------------------------------------------
  // Construction
  // ---------------------------------------------------------------------

  /** Every row reference of the argument is non-null. */
  predicate NoNullRows(rows: seq<Option<seq<real>>>) {
    forall i :: 0 <= i < |rows| ==> rows[i].Some?
  }

  /** The argument create(double[]...) accepts. */
  predicate WellFormedRows(rows: Option<seq<Option<seq<real>>>>) {
    rows.Some? && |rows.value| > 0 && NoNullRows(rows.value) && |rows.value[0].value| > 0 &&
    forall i :: 0 <= i < |rows.value| ==> |rows.value[i].value| == |rows.value[0].value|
  }

  /**
   * Matrix.create(double[]...): validates the row array, then copies every
   * row into a fresh grid, so the matrix shares no storage with the caller.
   */
  method Create(rows: Option<seq<Option<seq<real>>>>) returns (r: Result<Matrix>)
    ensures r.Success? <==> WellFormedRows(rows)
    ensures r.Failure? ==>
      r.error == (if rows.None? then NullArgument
                  else if |rows.value| == 0 then EmptyInput
                  else if !NoNullRows(rows.value) then ContainsNullElement
                  else if |rows.value[0].value| == 0 then InvalidShape
                  else DimensionMismatch)
    ensures r.Success? ==>
      r.value.Valid() && r.value.rows == |rows.value| && r.value.columns == |rows.value[0].value| &&
      forall i, j :: 0 <= i < r.value.rows && 0 <= j < r.value.columns ==>
        r.value.elements[i][j] == rows.value[i].value[j]
  {
    if rows.None? {
      return Failure(NullArgument);
    }
    var e := rows.value;
    if |e| == 0 {
      return Failure(EmptyInput);
    }
    if exists i :: 0 <= i < |e| && e[i].None? {
      return Failure(ContainsNullElement);
    }
    if |e[0].value| == 0 {
      return Failure(InvalidShape);
    }
    var columns := |e[0].value|;
    for iRow := 1 to |e|
      invariant forall k :: 0 <= k < iRow ==> |e[k].value| == columns
    {
      if |e[iRow].value| != columns {
        return Failure(DimensionMismatch);
      }
    }
    var a := new real[|e|, columns];
    for i := 0 to |e|
      invariant forall i', j :: 0 <= i' < i && 0 <= j < columns ==> a[i', j] == e[i'].value[j]
    {
      for j := 0 to columns
        invariant forall i', j' :: 0 <= i' < i && 0 <= j' < columns ==> a[i', j'] == e[i'].value[j']
        invariant forall j' :: 0 <= j' < j ==> a[i, j'] == e[i].value[j']
      {
        a[i, j] := e[i].value[j];
      }
    }
    return Success(Matrix(|e|, columns, Snapshot(a)));
  }

  /** The argument create(Vector...) is meant to accept: non-empty columns of one positive rank. */
  predicate WellFormedColumns(columns: Option<seq<Option<Vector>>>) {
    columns.Some? && |columns.value| > 0 &&
    (forall i :: 0 <= i < |columns.value| ==> columns.value[i].Some?) &&
    columns.value[0].value.Rank() > 0 &&
    forall i :: 0 <= i < |columns.value| ==> columns.value[i].value.Rank() == columns.value[0].value.Rank()
  }

  /**
   * Matrix.create(Vector...) with the evident intent: column ranks compared
   * with the first column's rank, and entry [iRow][iColumn] read as
   * d(iRow + 1) of column iColumn.
   */
  method CreateFromColumns(columns: Option<seq<Option<Vector>>>) returns (r: Result<Matrix>)
    ensures r.Success? <==> WellFormedColumns(columns)
    ensures r.Success? ==>
      r.value.Valid() && r.value.columns == |columns.value| && r.value.rows == columns.value[0].value.Rank() &&
      forall i, j :: 0 <= i < r.value.rows && 0 <= j < r.value.columns ==>
        r.value.elements[i][j] == columns.value[j].value.elements[i]
  {
    if columns.None? {
      return Failure(NullArgument);
    }
    var c := columns.value;
    if |c| == 0 {
      return Failure(EmptyInput);
    }
    if exists i :: 0 <= i < |c| && c[i].None? {
      return Failure(ContainsNullElement);
    }
    if c[0].value.Rank() == 0 {
      return Failure(InvalidShape);
    }
    var rowCount := c[0].value.Rank();
    for iColumn := 1 to |c|
      invariant forall k :: 0 <= k < iColumn ==> c[k].value.Rank() == rowCount
    {
      if c[iColumn].value.Rank() != rowCount {
        return Failure(DimensionMismatch);
      }
    }
    var a := new real[rowCount, |c|];
    for iRow := 0 to rowCount
      invariant forall i, j :: 0 <= i < iRow && 0 <= j < |c| ==> a[i, j] == c[j].value.elements[i]
    {
      for iColumn := 0 to |c|
        invariant forall i, j :: 0 <= i < iRow && 0 <= j < |c| ==> a[i, j] == c[j].value.elements[i]
        invariant forall j :: 0 <= j < iColumn ==> a[iRow, j] == c[j].value.elements[iRow]
      {
        var x := Vectors.D(c[iColumn].value, iRow + 1);
        a[iRow, iColumn] := x.value;
      }
    }
    return Success(Matrix(rowCount, |c|, Snapshot(a)));
  }

  /**
   * Matrix.create(Vector...) as written. The shape loop compares a Vector
   * object with an int, which is never equal, so two or more columns are
   * always refused; a single column reaches the constructor, whose first
   * read d(0) is outside the 1-based range.
   */
  method CreateFromColumnsAsWritten(columns: Option<seq<Option<Vector>>>) returns (r: Result<Matrix>)
    ensures r.Failure?
    ensures (columns.Some? && |columns.value| > 1 && (forall i :: 0 <= i < |columns.value| ==> columns.value[i].Some?) &&
             columns.value[0].value.Rank() > 0) ==> r.error == DimensionMismatch
    ensures columns.Some? && |columns.value| == 1 && columns.value[0].Some? && columns.value[0].value.Rank() > 0 ==>
      r.error == IndexOutOfRange
  {
    if columns.None? {
      return Failure(NullArgument);
    }
    var c := columns.value;
    if |c| == 0 {
      return Failure(EmptyInput);
    }
    if exists i :: 0 <= i < |c| && c[i].None? {
      return Failure(ContainsNullElement);
    }
    if c[0].value.Rank() == 0 {
      return Failure(InvalidShape);
    }
    for iColumn := 1 to |c| {
      // A Vector never equals a boxed int.
      return Failure(DimensionMismatch);
    }
    // The constructor's first read is d(0) of the first column, below the 1-based range.
    var first := Vectors.D(c[0].value, 0);
    return Failure(first.error);
  }

  /** Matrix.identity: a positive size gives the size-by-size identity. */
  method Identity(size: int) returns (r: Result<Matrix>)
    ensures r.Success? <==> size > 0
    ensures r.Failure? ==> r.error == InvalidShape
    ensures r.Success? ==>
      r.value.Valid() && r.value.rows == size && r.value.columns == size &&
      (forall i, j :: 0 <= i < size && 0 <= j < size ==> r.value.elements[i][j] == if i == j then 1.0 else 0.0) &&
      r.value == IdentityMatrix(size)
  {
    if size <= 0 {
      return Failure(InvalidShape);
    }
    var a := new real[size, size]((i, j) => 0.0);
    for index := 0 to size
      invariant forall i, j :: 0 <= i < size && 0 <= j < size ==>
        a[i, j] == if i == j && i < index then 1.0 else 0.0
    {
      a[index, index] := 1.0;
    }
    var s := Snapshot(a);
    assert forall i :: 0 <= i < size ==> s[i] == IdentityMatrix(size).elements[i];
    return Success(Matrix(size, size, s));
  }

  // ---------------------------------------------------------------------
  // Element access
  // ---------------------------------------------------------------------

  /** Matrix.getElement with the documented 1-based indexing. */
  function GetElement(m: Matrix, rowDimension: int, columnDimension: int): (r: Result<real>)
    requires m.Valid()
    ensures r.Success? <==> 1 <= rowDimension <= m.rows && 1 <= columnDimension <= m.columns
    ensures r.Success? ==> r.value == m.elements[rowDimension - 1][columnDimension - 1]
    ensures r.Failure? ==> r.error == IndexOutOfRange
  {
    if 1 <= rowDimension <= m.rows && 1 <= columnDimension <= m.columns then
      Success(m.elements[rowDimension - 1][columnDimension - 1])
    else Failure(IndexOutOfRange)
  }

  /**
   * Matrix.getElement as written: the 1-based range check passes, then the
   * body indexes elements[row][column], overrunning at ROWS or COLUMNS.
   */
  function GetElementAsWritten(m: Matrix, rowDimension: int, columnDimension: int): (r: Result<real>)
    requires m.Valid()
    ensures r.Success? <==> 1 <= rowDimension < m.rows && 1 <= columnDimension < m.columns
    ensures r.Success? ==> r.value == m.elements[rowDimension][columnDimension]
    ensures r.Failure? ==>
      r.error == (if 1 <= rowDimension <= m.rows && 1 <= columnDimension <= m.columns
                  then ArrayIndexOutOfBounds else IndexOutOfRange)
  {
    if !(1 <= rowDimension <= m.rows && 1 <= columnDimension <= m.columns) then Failure(IndexOutOfRange)
    else if rowDimension < m.rows && columnDimension < m.columns then
      Success(m.elements[rowDimension][columnDimension])
    else Failure(ArrayIndexOutOfBounds)
  }

  /** As written, getElement(r, c) returns the documented entry (r + 1, c + 1). */
  lemma GetElementAsWrittenIsShifted(m: Matrix, row: int, column: int)
    requires m.Valid() && 1 <= row < m.rows && 1 <= column < m.columns
    ensures GetElementAsWritten(m, row, column) == GetElement(m, row + 1, column + 1)
  {
  }

  /** On a 2x2 matrix, getElement(1, 1) as written returns the bottom-right entry and (2, 2) fails. */
  lemma GetElementAsWrittenOnSquare(a: real, b: real, c: real, d: real)
    ensures GetElementAsWritten(Matrix(2, 2, [[a, b], [c, d]]), 1, 1) == Success(d)
    ensures GetElementAsWritten(Matrix(2, 2, [[a, b], [c, d]]), 2, 2) == Failure(ArrayIndexOutOfBounds)
    ensures GetElement(Matrix(2, 2, [[a, b], [c, d]]), 1, 1) == Success(a)
  {
  }

  // ---------------------------------------------------------------------
  // Transpose
  // ---------------------------------------------------------------------

  /** Matrix.transverse: a COLUMNS x ROWS grid with t[i][j] = m[j][i]. */
  method Transverse(m: Matrix) returns (t: Matrix)
    requires m.Valid()
    ensures t.Valid() && t.rows == m.columns && t.columns == m.rows
    ensures forall i, j :: 0 <= i < m.columns && 0 <= j < m.rows ==> t.elements[i][j] == m.elements[j][i]
    ensures t == Transposed(m)
  {
    var a := new real[m.columns, m.rows];
    for i := 0 to m.columns
      invariant forall i', j :: 0 <= i' < i && 0 <= j < m.rows ==> a[i', j] == m.elements[j][i']
    {
      for j := 0 to m.rows
        invariant forall i', j' :: 0 <= i' < i && 0 <= j' < m.rows ==> a[i', j'] == m.elements[j'][i']
        invariant forall j' :: 0 <= j' < j ==> a[i, j'] == m.elements[j'][i]
      {
        a[i, j] := m.elements[j][i];
      }
    }
    var s := Snapshot(a);
    assert forall i :: 0 <= i < m.columns ==> s[i] == Transposed(m).elements[i];
    t := Matrix(m.columns, m.rows, s);
  }

  /** Transposing twice gives back an equal matrix. */
  lemma TransposeInvolutive(m: Matrix)
    requires m.Valid()
    ensures Transposed(m).Valid()
    ensures Transposed(Transposed(m)) == m
  {
    var t := Transposed(Transposed(m));
    assert forall i :: 0 <= i < m.rows ==> t.elements[i] == m.elements[i];
  }

  /** Column j of the transpose is row j of the original. */
  lemma ColumnOfTransposed(m: Matrix, j: int)
    requires m.Valid() && 0 <= j < m.rows
    ensures Transposed(m).Valid()
    ensures Column(Transposed(m), j) == m.elements[j]
  {
  }

  // ---------------------------------------------------------------------
  // Elementwise operations
  // ---------------------------------------------------------------------

  /** Matrix.negate: same shape, every entry negated. */
  method Negate(m: Matrix) returns (r: Matrix)
    requires m.Valid()
    ensures r.Valid() && r.rows == m.rows && r.columns == m.columns
    ensures forall i, j :: 0 <= i < m.rows && 0 <= j < m.columns ==> r.elements[i][j] == -m.elements[i][j]
  {
    var a := new real[m.rows, m.columns];
    for i := 0 to m.rows
      invariant forall i', j :: 0 <= i' < i && 0 <= j < m.columns ==> a[i', j] == -m.elements[i'][j]
    {
      for j := 0 to m.columns
        invariant forall i', j' :: 0 <= i' < i && 0 <= j' < m.columns ==> a[i', j'] == -m.elements[i'][j']
        invariant forall j' :: 0 <= j' < j ==> a[i, j'] == -m.elements[i][j']
      {
        a[i, j] := -m.elements[i][j];
      }
    }
    r := Matrix(m.rows, m.columns, Snapshot(a));
  }

  /** Matrix.add: equal ROWS and COLUMNS, entry by entry. */
  method Add(m: Matrix, n: Matrix) returns (r: Result<Matrix>)
    requires m.Valid() && n.Valid()
    ensures r.Success? <==> m.rows == n.rows && m.columns == n.columns
    ensures r.Failure? ==> r.error == DimensionMismatch
    ensures r.Success? ==>
      r.value.Valid() && r.value.rows == m.rows && r.value.columns == m.columns &&
      forall i, j :: 0 <= i < m.rows && 0 <= j < m.columns ==>
        r.value.elements[i][j] == m.elements[i][j] + n.elements[i][j]
  {
    if n.rows != m.rows || n.columns != m.columns {
      return Failure(DimensionMismatch);
    }
    var a := new real[m.rows, m.columns];
    for i := 0 to m.rows
      invariant forall i', j :: 0 <= i' < i && 0 <= j < m.columns ==> a[i', j] == m.elements[i'][j] + n.elements[i'][j]
    {
      for j := 0 to m.columns
        invariant forall i', j' :: 0 <= i' < i && 0 <= j' < m.columns ==>
          a[i', j'] == m.elements[i'][j'] + n.elements[i'][j']
        invariant forall j' :: 0 <= j' < j ==> a[i, j'] == m.elements[i][j'] + n.elements[i][j']
      {
        a[i, j] := m.elements[i][j] + n.elements[i][j];
      }
    }
    return Success(Matrix(m.rows, m.columns, Snapshot(a)));
  }

  /** Matrix.subtract: equal ROWS and COLUMNS, entry by entry. */
  method Subtract(m: Matrix, n: Matrix) returns (r: Result<Matrix>)
    requires m.Valid() && n.Valid()
    ensures r.Success? <==> m.rows == n.rows && m.columns == n.columns
    ensures r.Failure? ==> r.error == DimensionMismatch
    ensures r.Success? ==>
      r.value.Valid() && r.value.rows == m.rows && r.value.columns == m.columns &&
      forall i, j :: 0 <= i < m.rows && 0 <= j < m.columns ==>
        r.value.elements[i][j] == m.elements[i][j] - n.elements[i][j]
  {
    if n.rows != m.rows || n.columns != m.columns {
      return Failure(DimensionMismatch);
    }
    var a := new real[m.rows, m.columns];
    for i := 0 to m.rows
      invariant forall i', j :: 0 <= i' < i && 0 <= j < m.columns ==> a[i', j] == m.elements[i'][j] - n.elements[i'][j]
    {
      for j := 0 to m.columns
        invariant forall i', j' :: 0 <= i' < i && 0 <= j' < m.columns ==>
          a[i', j'] == m.elements[i'][j'] - n.elements[i'][j']
        invariant forall j' :: 0 <= j' < j ==> a[i, j'] == m.elements[i][j'] - n.elements[i][j']
      {
        a[i, j] := m.elements[i][j] - n.elements[i][j];
      }
    }
    return Success(Matrix(m.rows, m.columns, Snapshot(a)));
  }

  /** Matrix.multiply: same shape, every entry scaled. */
  method Multiply(m: Matrix, scalar: real) returns (r: Matrix)
    requires m.Valid()
    ensures r.Valid() && r.rows == m.rows && r.columns == m.columns
    ensures forall i, j :: 0 <= i < m.rows && 0 <= j < m.columns ==> r.elements[i][j] == m.elements[i][j] * scalar
  {
    var a := new real[m.rows, m.columns];
    for i := 0 to m.rows
      invariant forall i', j :: 0 <= i' < i && 0 <= j < m.columns ==> a[i', j] == m.elements[i'][j] * scalar
    {
      for j := 0 to m.columns
        invariant forall i', j' :: 0 <= i' < i && 0 <= j' < m.columns ==> a[i', j'] == m.elements[i'][j'] * scalar
        invariant forall j' :: 0 <= j' < j ==> a[i, j'] == m.elements[i][j'] * scalar
      {
        a[i, j] := m.elements[i][j] * scalar;
      }
    }
    r := Matrix(m.rows, m.columns, Snapshot(a));
  }

  /** Matrix.divide: refuses a scalar within EPSILON of zero, otherwise divides every entry. */
  method Divide(m: Matrix, scalar: real) returns (r: Result<Matrix>)
    requires m.Valid()
    ensures r.Success? <==> !IsEqual(scalar, 0.0, EPSILON)
    ensures r.Failure? ==> r.error == DivisionByZero
    ensures r.Success? ==>
      scalar != 0.0 && r.value.Valid() && r.value.rows == m.rows && r.value.columns == m.columns &&
      forall i, j :: 0 <= i < m.rows && 0 <= j < m.columns ==> r.value.elements[i][j] == m.elements[i][j] / scalar
  {
    if IsEqual(scalar, 0.0, EPSILON) {
      return Failure(DivisionByZero);
    }
    var a := new real[m.rows, m.columns];
    for i := 0 to m.rows
      invariant forall i', j :: 0 <= i' < i && 0 <= j < m.columns ==> a[i', j] == m.elements[i'][j] / scalar
    {
      for j := 0 to m.columns
        invariant forall i', j' :: 0 <= i' < i && 0 <= j' < m.columns ==> a[i', j'] == m.elements[i'][j'] / scalar
        invariant forall j' :: 0 <= j' < j ==> a[i, j'] == m.elements[i][j'] / scalar
      {
        a[i, j] := m.elements[i][j] / scalar;
      }
    }
    return Success(Matrix(m.rows, m.columns, Snapshot(a)));
  }

  /** Matrix.equals: same ROWS, COLUMNS and every entry exactly equal (RANK is always -1). */
  function Equals(m: Matrix, n: Matrix): (r: bool)
    requires m.Valid() && n.Valid()
    ensures r <==>
      m.rows == n.rows && m.columns == n.columns &&
      forall i, j :: 0 <= i < m.rows && 0 <= j < m.columns ==> m.elements[i][j] == n.elements[i][j]
  {
    assert (m.rows == n.rows && m.columns == n.columns &&
            (forall i, j :: 0 <= i < m.rows && 0 <= j < m.columns ==> m.elements[i][j] == n.elements[i][j])) ==>
      forall i :: 0 <= i < m.rows ==> m.elements[i] == n.elements[i];
    m == n
  }

  // ---------------------------------------------------------------------
  // Sub-matrix
  // ---------------------------------------------------------------------

  /**
   * The copy loop of subMatrix: walks every original entry, skipping row
   * `exRow` and column `exCol` (0-based) and moving the others up and left
   * with the effectiveRow/effectiveColumn counters. A write outside the
   * (ROWS-1)x(COLUMNS-1) result is the Java runtime's index failure.
   */
  method CopyExcluding(m: Matrix, exRow: int, exCol: int) returns (r: Result<Matrix>)
    requires m.Valid() && 1 <= m.rows && 1 <= m.columns
    requires 0 <= exRow <= m.rows && 0 <= exCol <= m.columns
    ensures r.Failure? <==> exists i, j :: StrayWrite(m, exRow, exCol, i, j)
    ensures r.Failure? ==> r.error == ArrayIndexOutOfBounds
    ensures r.Success? ==>
      r.value.Valid() && r.value.rows == m.rows - 1 && r.value.columns == m.columns - 1 &&
      forall i, j :: 0 <= i < m.rows - 1 && 0 <= j < m.columns - 1 ==>
        r.value.elements[i][j] == m.elements[Skip(i, exRow)][Skip(j, exCol)]
  {
    var a := new real[m.rows - 1, m.columns - 1];
    var effectiveRow := 0;
    for i := 0 to m.rows
      invariant effectiveRow == if i <= exRow then i else i - 1
      invariant forall i', j :: 0 <= i' < i && 0 <= j < m.columns ==> !StrayWrite(m, exRow, exCol, i', j)
      invariant forall ni, nj :: 0 <= ni < effectiveRow && ni < m.rows - 1 && 0 <= nj < m.columns - 1 ==>
        a[ni, nj] == m.elements[Skip(ni, exRow)][Skip(nj, exCol)]
    {
      if i != exRow {
        var effectiveColumn := 0;
        for j := 0 to m.columns
          invariant effectiveColumn == if j <= exCol then j else j - 1
          invariant effectiveColumn <= m.columns - 1
          invariant effectiveColumn > 0 ==> effectiveRow < m.rows - 1
          invariant forall j' :: 0 <= j' < j ==> !StrayWrite(m, exRow, exCol, i, j')
          invariant forall ni, nj :: 0 <= ni < effectiveRow && ni < m.rows - 1 && 0 <= nj < m.columns - 1 ==>
            a[ni, nj] == m.elements[Skip(ni, exRow)][Skip(nj, exCol)]
          invariant forall nj :: 0 <= nj < effectiveColumn && effectiveRow < m.rows - 1 ==>
            a[effectiveRow, nj] == m.elements[i][Skip(nj, exCol)]
        {
          if j != exCol {
            if effectiveRow >= m.rows - 1 || effectiveColumn >= m.columns - 1 {
              assert StrayWrite(m, exRow, exCol, i, j);
              return Failure(ArrayIndexOutOfBounds);
            }
            a[effectiveRow, effectiveColumn] := m.elements[i][j];
          } else {
            effectiveColumn := effectiveColumn - 1;
          }
          effectiveColumn := effectiveColumn + 1;
        }
      } else {
        effectiveRow := effectiveRow - 1;
      }
      effectiveRow := effectiveRow + 1;
    }
    var s := Snapshot(a);
    return Success(Matrix(m.rows - 1, m.columns - 1, s));
  }

  /** Removing a row and a column that exist never writes outside the result. */
  lemma NoStrayWriteInRange(m: Matrix, exRow: int, exCol: int)
    requires 0 <= exRow < m.rows && 0 <= exCol < m.columns
    ensures forall i, j :: !StrayWrite(m, exRow, exCol, i, j)
  {
  }

  /**
   * With the 1-based arguments used as 0-based exclusions, the loop writes
   * outside the result exactly when the last row or the last column is named.
   */
  lemma StrayWriteAsWritten(m: Matrix, row: int, column: int)
    requires 1 <= row <= m.rows && 1 <= column <= m.columns
    ensures (exists i, j :: StrayWrite(m, row, column, i, j)) <==> row == m.rows || column == m.columns
  {
    if row == m.rows {
      assert StrayWrite(m, row, column, m.rows - 1, 0);
    } else if column == m.columns {
      assert StrayWrite(m, row, column, 0, m.columns - 1);
    }
  }

  /**
   * Matrix.subMatrix as its Javadoc documents it: 1-based arguments, and a
   * matrix with more than one row and more than one column, so that the
   * (ROWS-1)x(COLUMNS-1) result is non-empty; it holds every entry outside
   * the named row and column.
   */
  method SubMatrix(m: Matrix, excludeRowIndex: int, excludeColumnIndex: int) returns (r: Result<Matrix>)
    requires m.Valid()
    ensures r.Success? <==>
      1 < m.rows && 1 < m.columns &&
      1 <= excludeRowIndex <= m.rows && 1 <= excludeColumnIndex <= m.columns
    ensures r.Failure? ==>
      r.error == (if 1 <= excludeRowIndex <= m.rows && 1 <= excludeColumnIndex <= m.columns
                  then InvalidShape else IndexOutOfRange)
    ensures r.Success? ==>
      r.value.Valid() && r.value.rows == m.rows - 1 >= 1 && r.value.columns == m.columns - 1 >= 1 &&
      forall i, j :: 0 <= i < m.rows - 1 && 0 <= j < m.columns - 1 ==>
        r.value.elements[i][j] == m.elements[Skip(i, excludeRowIndex - 1)][Skip(j, excludeColumnIndex - 1)]
  {
    if !(1 <= excludeRowIndex <= m.rows && 1 <= excludeColumnIndex <= m.columns) {
      return Failure(IndexOutOfRange);
    }
    if !(1 < m.rows && 1 < m.columns) {
      return Failure(InvalidShape);
    }
    NoStrayWriteInRange(m, excludeRowIndex - 1, excludeColumnIndex - 1);
    r := CopyExcluding(m, excludeRowIndex - 1, excludeColumnIndex - 1);
  }

  /**
   * Matrix.subMatrix as written: the loop compares 0-based indices with the
   * 1-based arguments, so it removes row excludeRowIndex + 1 and column
   * excludeColumnIndex + 1, and naming the last row or column overruns the result.
   */
  method SubMatrixAsWritten(m: Matrix, excludeRowIndex: int, excludeColumnIndex: int) returns (r: Result<Matrix>)
    requires m.Valid()
    ensures r.Success? <==> 1 <= excludeRowIndex < m.rows && 1 <= excludeColumnIndex < m.columns
    ensures r.Failure? ==>
      r.error == (if 1 <= excludeRowIndex <= m.rows && 1 <= excludeColumnIndex <= m.columns
                  then ArrayIndexOutOfBounds else IndexOutOfRange)
    ensures r.Success? ==>
      r.value.Valid() && r.value.rows == m.rows - 1 && r.value.columns == m.columns - 1 &&
      forall i, j :: 0 <= i < m.rows - 1 && 0 <= j < m.columns - 1 ==>
        r.value.elements[i][j] == m.elements[Skip(i, excludeRowIndex)][Skip(j, excludeColumnIndex)]
  {
    if !(1 <= excludeRowIndex <= m.rows && 1 <= excludeColumnIndex <= m.columns) {
      return Failure(IndexOutOfRange);
    }
    StrayWriteAsWritten(m, excludeRowIndex, excludeColumnIndex);
    r := CopyExcluding(m, excludeRowIndex, excludeColumnIndex);
  }

  // ---------------------------------------------------------------------
  // Products
  // ---------------------------------------------------------------------

  /**
   * Matrix.dotProduct(Matrix) with the evident intent (reading the right
   * operand at [k][j]): left COLUMNS must equal right ROWS, and the result is
   * the ROWS x right.COLUMNS matrix product, accumulated entry by entry.
   */
  method DotProduct(a: Matrix, b: Matrix) returns (r: Result<Matrix>)
    requires a.Valid() && b.Valid()
    ensures r.Success? <==> a.columns == b.rows
    ensures r.Failure? ==> r.error == DimensionMismatch
    ensures r.Success? ==>
      r.value.Valid() && r.value.rows == a.rows && r.value.columns == b.columns &&
      r.value == Product(a, b)
  {
    if b.rows != a.columns {
      return Failure(DimensionMismatch);
    }
    var c := new real[a.rows, b.columns]((i, j) => 0.0);
    for i := 0 to a.rows
      invariant forall i', j' :: 0 <= i' < a.rows && 0 <= j' < b.columns ==>
        c[i', j'] == if i' < i then Dot(a.elements[i'], Column(b, j')) else 0.0
    {
      for j := 0 to b.columns
        invariant forall i', j' :: 0 <= i' < a.rows && 0 <= j' < b.columns ==>
          c[i', j'] == if i' < i || (i' == i && j' < j) then Dot(a.elements[i'], Column(b, j')) else 0.0
      {
        for k := 0 to a.columns
          invariant c[i, j] == Dot(a.elements[i][..k], Column(b, j)[..k])
          invariant forall i', j' :: 0 <= i' < a.rows && 0 <= j' < b.columns && (i' != i || j' != j) ==>
            c[i', j'] == if i' < i || (i' == i && j' < j) then Dot(a.elements[i'], Column(b, j')) else 0.0
        {
          assert a.elements[i][..k + 1][..k] == a.elements[i][..k];
          assert Column(b, j)[..k + 1][..k] == Column(b, j)[..k];
          c[i, j] := c[i, j] + a.elements[i][k] * b.elements[k][j];
        }
        assert a.elements[i][..a.columns] == a.elements[i];
        assert Column(b, j)[..a.columns] == Column(b, j);
      }
    }
    var s := Snapshot(c);
    assert forall i :: 0 <= i < a.rows ==> s[i] == Product(a, b).elements[i];
    return Success(Matrix(a.rows, b.columns, s));
  }

  /**
   * Matrix.dotProduct(Matrix) as written: the right operand is read at
   * [k][i], so row i needs i < right.COLUMNS, and every entry of row i is
   * row i of `a` dotted with column i of `b`.
   */
  method DotProductAsWritten(a: Matrix, b: Matrix) returns (r: Result<Matrix>)
    requires a.Valid() && b.Valid()
    ensures r.Success? <==> a.columns == b.rows && (a.rows <= b.columns || b.columns == 0 || a.columns == 0)
    ensures r.Failure? ==> r.error == if a.columns != b.rows then DimensionMismatch else ArrayIndexOutOfBounds
    ensures r.Success? ==>
      r.value.Valid() && r.value.rows == a.rows && r.value.columns == b.columns &&
      r.value == MisindexedProduct(a, b)
  {
    if b.rows != a.columns {
      return Failure(DimensionMismatch);
    }
    var c := new real[a.rows, b.columns]((i, j) => 0.0);
    for i := 0 to a.rows
      invariant b.columns == 0 || a.columns == 0 || i <= b.columns
      invariant forall i', j' :: 0 <= i' < a.rows && 0 <= j' < b.columns ==>
        c[i', j'] == if i' < i then Dot(a.elements[i'], Column(b, i')) else 0.0
    {
      for j := 0 to b.columns
        invariant j == 0 || a.columns == 0 || i < b.columns
        invariant forall i', j' :: 0 <= i' < a.rows && 0 <= j' < b.columns ==>
          c[i', j'] == if i' < i || (i' == i && j' < j) then Dot(a.elements[i'], Column(b, i')) else 0.0
      {
        for k := 0 to a.columns
          invariant k == 0 || i < b.columns
          invariant c[i, j] == if k == 0 then 0.0 else Dot(a.elements[i][..k], Column(b, i)[..k])
          invariant forall i', j' :: 0 <= i' < a.rows && 0 <= j' < b.columns && (i' != i || j' != j) ==>
            c[i', j'] == if i' < i || (i' == i && j' < j) then Dot(a.elements[i'], Column(b, i')) else 0.0
        {
          if i >= b.columns {
            return Failure(ArrayIndexOutOfBounds);
          }
          assert a.elements[i][..k + 1][..k] == a.elements[i][..k];
          assert Column(b, i)[..k + 1][..k] == Column(b, i)[..k];
          c[i, j] := c[i, j] + a.elements[i][k] * b.elements[k][i];
        }
        assert a.elements[i][..a.columns] == a.elements[i];
        assert a.columns == 0 || Column(b, i)[..a.columns] == Column(b, i);
      }
    }
    var s := Snapshot(c);
    assert forall i :: 0 <= i < a.rows ==> s[i] == MisindexedProduct(a, b).elements[i];
    return Success(Matrix(a.rows, b.columns, s));
  }

  /** A unit row picks one entry out of the dot product, prefix by prefix. */
  lemma {:induction false} DotUnitPrefix(u: seq<real>, c: seq<real>, i: int, k: nat)
    requires |u| == |c| && 0 <= i < |u| && k <= |u|
    requires forall t :: 0 <= t < |u| ==> u[t] == if t == i then 1.0 else 0.0
    ensures Dot(u[..k], c[..k]) == if i < k then c[i] else 0.0
  {
    if k > 0 {
      DotUnitPrefix(u, c, i, k - 1);
      assert u[..k][..k - 1] == u[..k - 1];
      assert c[..k][..k - 1] == c[..k - 1];
    }
  }

  /** The identity is a left unit of the (intended) matrix product. */
  lemma IdentityLeftNeutral(m: Matrix)
    requires m.Valid()
    ensures Product(IdentityMatrix(m.rows), m) == m
  {
    var n := m.rows;
    var p := Product(IdentityMatrix(n), m);
    forall i, j | 0 <= i < n && 0 <= j < m.columns
      ensures p.elements[i][j] == m.elements[i][j]
    {
      var u := IdentityMatrix(n).elements[i];
      DotUnitPrefix(u, Column(m, j), i, n);
      assert u[..n] == u;
      assert Column(m, j)[..n] == Column(m, j);
    }
    assert forall i :: 0 <= i < n ==> p.elements[i] == m.elements[i];
  }

  /**
   * I2 . [[1, 2], [3, 4]]: the product as written gives [[1, 1], [4, 4]],
   * not the right operand back.
   */
  lemma MisindexedProductOnIdentity()
    ensures MisindexedProduct(IdentityMatrix(2), Matrix(2, 2, [[1.0, 2.0], [3.0, 4.0]]))
         == Matrix(2, 2, [[1.0, 1.0], [4.0, 4.0]])
    ensures Product(IdentityMatrix(2), Matrix(2, 2, [[1.0, 2.0], [3.0, 4.0]]))
         == Matrix(2, 2, [[1.0, 2.0], [3.0, 4.0]])
  {
    var b := Matrix(2, 2, [[1.0, 2.0], [3.0, 4.0]]);
    var e := IdentityMatrix(2).elements;
    assert e[0] == [1.0, 0.0] && e[1] == [0.0, 1.0];
    assert Column(b, 0) == [1.0, 3.0] && Column(b, 1) == [2.0, 4.0];
    DotPair(e[0], Column(b, 0));
    DotPair(e[1], Column(b, 1));
    var w := MisindexedProduct(IdentityMatrix(2), b);
    assert w.elements[0] == [1.0, 1.0];
    assert w.elements[1] == [4.0, 4.0];
    IdentityLeftNeutral(b);
  }

  /**
   * Matrix.dotProduct(Vector) with the 1-based accessor (d(j + 1)): each
   * entry is a row dotted with the vector; Vector.create refuses a result
   * of rank 0.
   */
  method VectorProduct(m: Matrix, v: Vector) returns (r: Result<Vector>)
    requires m.Valid()
    ensures r.Success? <==> v.Rank() == m.columns && m.rows > 0
    ensures r.Failure? ==> r.error == if v.Rank() != m.columns then DimensionMismatch else EmptyInput
    ensures r.Success? ==>
      r.value.Rank() == m.rows &&
      forall i :: 0 <= i < m.rows ==> r.value.elements[i] == Dot(m.elements[i], v.elements)
  {
    if v.Rank() != m.columns {
      return Failure(DimensionMismatch);
    }
    var e := new real[m.rows](i => 0.0);
    for i := 0 to m.rows
      invariant forall i' :: 0 <= i' < m.rows ==> e[i'] == if i' < i then Dot(m.elements[i'], v.elements) else 0.0
    {
      for j := 0 to m.columns
        invariant e[i] == Dot(m.elements[i][..j], v.elements[..j])
        invariant forall i' :: 0 <= i' < m.rows && i' != i ==>
          e[i'] == if i' < i then Dot(m.elements[i'], v.elements) else 0.0
      {
        var x := Vectors.D(v, j + 1);
        assert m.elements[i][..j + 1][..j] == m.elements[i][..j];
        assert v.elements[..j + 1][..j] == v.elements[..j];
        e[i] := e[i] + m.elements[i][j] * x.value;
      }
      assert m.elements[i][..m.columns] == m.elements[i];
      assert v.elements[..m.columns] == v.elements;
    }
    r := Vectors.Create(Some(e[..]));
  }

  /**
   * Matrix.dotProduct(Vector) as written: the first read is d(0), below the
   * 1-based range, so only a matrix without columns gets through the loop.
   */
  method VectorProductAsWritten(m: Matrix, v: Vector) returns (r: Result<Vector>)
    requires m.Valid()
    ensures r.Success? <==> v.Rank() == m.columns && m.rows > 0 && m.columns == 0
    ensures r.Failure? ==>
      r.error == if v.Rank() != m.columns then DimensionMismatch
                 else if m.rows == 0 then EmptyInput
                 else IndexOutOfRange
    ensures r.Success? ==> r.value.elements == seq(m.rows, i => 0.0)
  {
    if v.Rank() != m.columns {
      return Failure(DimensionMismatch);
    }
    var e := new real[m.rows](i => 0.0);
    for i := 0 to m.rows
      invariant m.columns == 0 || i == 0
      invariant forall i' :: 0 <= i' < m.rows ==> e[i'] == 0.0
    {
      for j := 0 to m.columns
        invariant j == 0
      {
        var x := Vectors.D(v, j);
        return Failure(x.error);
      }
    }
    r := Vectors.Create(Some(e[..]));
  }

  /**
   * Matrix.dotProduct(Point) with the 1-based accessor (d(j + 1)): each
   * coordinate is a row dotted with the point; Point.create refuses a
   * result of rank 0.
   */
  method PointProduct(m: Matrix, p: Point) returns (r: Result<Point>)
    requires m.Valid()
    ensures r.Success? <==> p.Rank() == m.columns && m.rows > 0
    ensures r.Failure? ==> r.error == if p.Rank() != m.columns then DimensionMismatch else EmptyInput
    ensures r.Success? ==>
      r.value.Rank() == m.rows &&
      forall i :: 0 <= i < m.rows ==> r.value.elements[i] == Dot(m.elements[i], p.elements)
  {
    if p.Rank() != m.columns {
      return Failure(DimensionMismatch);
    }
    var e := new real[m.rows](i => 0.0);
    for i := 0 to m.rows
      invariant forall i' :: 0 <= i' < m.rows ==> e[i'] == if i' < i then Dot(m.elements[i'], p.elements) else 0.0
    {
      for j := 0 to m.columns
        invariant e[i] == Dot(m.elements[i][..j], p.elements[..j])
        invariant forall i' :: 0 <= i' < m.rows && i' != i ==>
          e[i'] == if i' < i then Dot(m.elements[i'], p.elements) else 0.0
      {
        var x := Points.D(p, j + 1);
        assert m.elements[i][..j + 1][..j] == m.elements[i][..j];
        assert p.elements[..j + 1][..j] == p.elements[..j];
        e[i] := e[i] + m.elements[i][j] * x.value;
      }
      assert m.elements[i][..m.columns] == m.elements[i];
      assert p.elements[..m.columns] == p.elements;
    }
    r := Points.Create(Some(e[..]));
  }

  /**
   * Matrix.dotProduct(Point) as written: the first read is Point.d(0),
   * below the 1-based range, so only a matrix without columns gets through.
   */
  method PointProductAsWritten(m: Matrix, p: Point) returns (r: Result<Point>)
    requires m.Valid()
    ensures r.Success? <==> p.Rank() == m.columns && m.rows > 0 && m.columns == 0
    ensures r.Failure? ==>
      r.error == if p.Rank() != m.columns then DimensionMismatch
                 else if m.rows == 0 then EmptyInput
                 else IndexOutOfRange
    ensures r.Success? ==> r.value.elements == seq(m.rows, i => 0.0)
  {
    if p.Rank() != m.columns {
      return Failure(DimensionMismatch);
    }
    var e := new real[m.rows](i => 0.0);
    for i := 0 to m.rows
      invariant m.columns == 0 || i == 0
      invariant forall i' :: 0 <= i' < m.rows ==> e[i'] == 0.0
    {
      for j := 0 to m.columns
        invariant j == 0
      {
        var x := Points.DAsWritten(p, j);
        return Failure(x.error);
      }
    }
    r := Points.Create(Some(e[..]));
  }

  /**
   * Point.dotProduct(Matrix) with the 1-based accessor (getElement(i + 1,
   * j + 1)): the point times the matrix, coordinate j being the point
   * dotted with column j. The result is built without Point.create.
   */
  method PointTimesMatrix(p: Point, m: Matrix) returns (r: Result<Point>)
    requires m.Valid()
    ensures r.Success? <==> m.rows == p.Rank()
    ensures r.Failure? ==> r.error == DimensionMismatch
    ensures r.Success? ==>
      r.value.Rank() == m.columns &&
      forall j :: 0 <= j < m.columns ==> r.value.elements[j] == Dot(p.elements, Column(m, j))
  {
    if m.rows != p.Rank() {
      return Failure(DimensionMismatch);
    }
    var e := new real[m.columns](j => 0.0);
    for j := 0 to m.columns
      invariant forall j' :: 0 <= j' < m.columns ==> e[j'] == if j' < j then Dot(p.elements, Column(m, j')) else 0.0
    {
      for i := 0 to p.Rank()
        invariant e[j] == Dot(p.elements[..i], Column(m, j)[..i])
        invariant forall j' :: 0 <= j' < m.columns && j' != j ==>
          e[j'] == if j' < j then Dot(p.elements, Column(m, j')) else 0.0
      {
        var x := GetElement(m, i + 1, j + 1);
        assert p.elements[..i + 1][..i] == p.elements[..i];
        assert Column(m, j)[..i + 1][..i] == Column(m, j)[..i];
        e[j] := e[j] + p.elements[i] * x.value;
      }
      assert p.elements[..p.Rank()] == p.elements;
      assert Column(m, j)[..p.Rank()] == Column(m, j);
    }
    return Success(Point(e[..]));
  }

  /**
   * Point.dotProduct(Matrix) as written: the first read is getElement(0, 0),
   * below the 1-based range, so only a matrix without rows or columns gets through.
   */
  method PointTimesMatrixAsWritten(p: Point, m: Matrix) returns (r: Result<Point>)
    requires m.Valid()
    ensures r.Success? <==> m.rows == p.Rank() && (m.columns == 0 || m.rows == 0)
    ensures r.Failure? ==> r.error == if m.rows != p.Rank() then DimensionMismatch else IndexOutOfRange
    ensures r.Success? ==> r.value.elements == seq(m.columns, j => 0.0)
  {
    if m.rows != p.Rank() {
      return Failure(DimensionMismatch);
    }
    var e := new real[m.columns](j => 0.0);
    for j := 0 to m.columns
      invariant p.Rank() == 0 || j == 0
      invariant forall j' :: 0 <= j' < m.columns ==> e[j'] == 0.0
    {
      for i := 0 to p.Rank()
        invariant i == 0
      {
        var x := GetElementAsWritten(m, i, j);
        return Failure(x.error);
      }
    }
    return Success(Point(e[..]));
  }

  /**
   * Vector.dotProduct(Matrix) as written: the first read is getElement(0, 0),
   * below the 1-based range, so only a matrix without rows or columns gets
   * through, giving RANK zeros.
   */
  method VectorTimesMatrixAsWritten(v: Vector, m: Matrix) returns (r: Result<Vector>)
    requires m.Valid()
    ensures r.Success? <==> m.rows == v.Rank() && (m.columns == 0 || m.rows == 0)
    ensures r.Failure? ==> r.error == if m.rows != v.Rank() then DimensionMismatch else IndexOutOfRange
    ensures r.Success? ==> r.value.elements == seq(v.Rank(), i => 0.0)
  {
    if m.rows != v.Rank() {
      return Failure(DimensionMismatch);
    }
    var e := new real[v.Rank()](i => 0.0);
    for j := 0 to m.columns
      invariant v.Rank() == 0 || j == 0
      invariant forall i' :: 0 <= i' < v.Rank() ==> e[i'] == 0.0
    {
      for i := 0 to v.Rank()
        invariant i == 0
      {
        var x := GetElementAsWritten(m, i, j);
        return Failure(x.error);
      }
    }
    return Success(Vector(e[..]));
  }
}
