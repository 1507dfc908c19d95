/**
 * The matrix container and the elementwise operations of MatrixKit: validated
 * construction, the two combinators that allocate a new matrix and fill it
 * cell by cell, the operator wrappers and the fill step of readMatrix.
 */
module MatrixKit {
  import opened Wrappers
  import opened Errors
  import opened Numeric
  import opened Grids
  import opened Reading

  /** A rowCount x colCount grid of cells that may be empty. */
  class Matrix {
    const cells: array2<Cell>

    constructor (cells: array2<Cell>)
      ensures this.cells == cells
    {
      this.cells := cells;
    }

    function RowCount(): nat {
      cells.Length0
    }

    function ColCount(): nat {
      cells.Length1
    }

    /** Every matrix has at least one row and one column. */
    predicate Valid() {
      RowCount() > 0 && ColCount() > 0
    }

    /** The cells as a value, row by row. */
    ghost function Contents(): (g: Grid)
      reads cells
      ensures IsShape(g, RowCount(), ColCount())
      ensures forall i, j :: 0 <= i < RowCount() && 0 <= j < ColCount() ==> g[i][j] == cells[i, j]
    {
      seq(RowCount(), i requires 0 <= i < RowCount() reads cells =>
        seq(ColCount(), j requires 0 <= j < ColCount() reads cells => cells[i, j]))
    }

    /**
     * Matrix.Companion.invoke: refuses a non-positive dimension, otherwise
     * allocates a rowCount x colCount matrix of empty cells.
     */
    static method Create(rowCount: int, colCount: int) returns (r: Result<Matrix, Error>)
      ensures r.Failure? <==> !(rowCount > 0 && colCount > 0)
      ensures r.Failure? ==> r.error == InvalidSize
      ensures r.Success? ==>
        && fresh(r.value) && fresh(r.value.cells) && r.value.Valid()
        && r.value.RowCount() == rowCount && r.value.ColCount() == colCount
        && r.value.Contents() == Constant(rowCount, colCount, None)
    {
      if !(rowCount > 0 && colCount > 0) {
        return Failure(InvalidSize);
      }
      var storage := new Cell[rowCount, colCount]((_, _) => None);
      var m := new Matrix(storage);
      SameCells(m.Contents(), Constant(rowCount, colCount, None));
      return Success(m);
    }

    /**
     * The fill step of readMatrix: a running counter walks the values while
     * the two loops walk the rows and the columns, so cell (i, j) receives
     * value number RowStart(i, ColCount()) + j, that is i * ColCount() + j.
     */
    method FillRowMajor(values: seq<Value>)
      requires Valid() && |values| == RowCount() * ColCount()
      modifies cells
      ensures Contents() == Unflatten(values, RowCount(), ColCount())
    {
      var rows, cols := RowCount(), ColCount();
      ghost var u := Unflatten(values, rows, cols);
      UnflattenShape(values, rows, cols);
      var count := 0;
      var i := 0;
      while i < rows
        invariant 0 <= i <= rows
        invariant count == RowStart(i, cols)
        invariant forall i', j' :: 0 <= i' < i && 0 <= j' < cols ==> cells[i', j'] == u[i'][j']
      {
        var j := 0;
        while j < cols
          invariant 0 <= j <= cols
          invariant count == RowStart(i, cols) + j
          invariant forall j' :: 0 <= j' < j ==> cells[i, j'] == u[i][j']
          invariant forall i', j' :: 0 <= i' < i && 0 <= j' < cols ==> cells[i', j'] == u[i'][j']
        {
          UnflattenCell(values, rows, cols, i, j);
          cells[i, j] := Some(values[count]);
          count := count + 1;
          j := j + 1;
        }
        i := i + 1;
      }
      SameCells(Contents(), u);
    }

    /**
     * readMatrix once the two dimensions and the line of tokens have been
     * read: construction, the token-count check, parsing of every token,
     * then the row-major fill.
     */
    static method ReadMatrix(rowCount: Int32, colCount: Int32, tokens: seq<string>, parse: string -> Option<Value>)
      returns (r: Result<Matrix, Error>)
      ensures Produces(r, ReadGrid(rowCount as int, colCount as int, tokens, parse))
      ensures r.Success? ==> fresh(r.value) && fresh(r.value.cells)
    {
      var created := Create(rowCount as int, colCount as int);
      if created.Failure? {
        return Failure(created.error);
      }
      var matrix := created.value;
      if |tokens| != rowCount as int * colCount as int {
        return Failure(SizeMismatch);
      }
      var values := ParseAll(tokens, parse);
      if values.None? {
        return Failure(IncorrectInput);
      }
      matrix.FillRowMajor(values.value);
      return Success(matrix);
    }

    /**
     * calculateByOperationWithElement: a new matrix whose cell (i, j) is
     * this[i][j] op element, filled row by row; the first failing cell
     * aborts the operation.
     */
    method CalculateByOperationWithElement(element: Value, op: Operation) returns (r: Result<Matrix, Error>)
      requires Valid()
      ensures Produces(r, Broadcast(Contents(), element, op))
      ensures r.Success? ==> fresh(r.value) && fresh(r.value.cells)
    {
      var created := Create(RowCount(), ColCount());
      if created.Failure? {
        assert false;
      }
      var newMatrix := created.value;
      ghost var a, b := Contents(), Constant(RowCount(), ColCount(), Some(element));
      var i := 0;
      while i < RowCount()
        invariant 0 <= i <= RowCount()
        invariant forall i', j' :: 0 <= i' < i && 0 <= j' < ColCount() ==>
          CombinedCell(a, b, op, i', j', newMatrix.cells[i', j'])
      {
        var j := 0;
        while j < ColCount()
          invariant 0 <= j <= ColCount()
          invariant forall j' :: 0 <= j' < j ==>
            CombinedCell(a, b, op, i, j', newMatrix.cells[i, j'])
          invariant forall i', j' :: 0 <= i' < i && 0 <= j' < ColCount() ==>
            CombinedCell(a, b, op, i', j', newMatrix.cells[i', j'])
        {
          var v := CalculateByOperation(cells[i, j], Some(element), op);
          assert v == CalculateByOperation(a[i][j], b[i][j], op);
          if v.Failure? {
            FirstFailingCell(a, b, op, newMatrix.Contents(), i, j);
            return Failure(v.error);
          }
          assert CombinedCell(a, b, op, i, j, Some(v.value));
          newMatrix.cells[i, j] := Some(v.value);
          j := j + 1;
        }
        i := i + 1;
      }
      AllCellsSucceed(a, b, op, newMatrix.Contents());
      return Success(newMatrix);
    }
    /** `this + other`. */
    method Plus(other: Matrix) returns (r: Result<Matrix, Error>)
      requires Valid() && other.Valid()
      ensures Produces(r, Combine(Contents(), other.Contents(), Operation.Plus))
      ensures r.Success? ==> fresh(r.value) && fresh(r.value.cells)
    {
      r := CalculateMatrixByOperation(this, other, Operation.Plus);
    }

    /** `this + element`. */
    method PlusElement(element: Value) returns (r: Result<Matrix, Error>)
      requires Valid()
      ensures Produces(r, Broadcast(Contents(), element, Operation.Plus))
      ensures r.Success? ==> fresh(r.value) && fresh(r.value.cells)
    {
      r := CalculateByOperationWithElement(element, Operation.Plus);
    }

    /** `this - other`. */
    method Minus(other: Matrix) returns (r: Result<Matrix, Error>)
      requires Valid() && other.Valid()
      ensures Produces(r, Combine(Contents(), other.Contents(), Operation.Minus))
      ensures r.Success? ==> fresh(r.value) && fresh(r.value.cells)
    {
      r := CalculateMatrixByOperation(this, other, Operation.Minus);
    }

    /** `this - element`. */
    method MinusElement(element: Value) returns (r: Result<Matrix, Error>)
      requires Valid()
      ensures Produces(r, Broadcast(Contents(), element, Operation.Minus))
      ensures r.Success? ==> fresh(r.value) && fresh(r.value.cells)
    {
      r := CalculateByOperationWithElement(element, Operation.Minus);
    }

    /** `this * other`, elementwise. */
    method Times(other: Matrix) returns (r: Result<Matrix, Error>)
      requires Valid() && other.Valid()
      ensures Produces(r, Combine(Contents(), other.Contents(), Multiply))
      ensures r.Success? ==> fresh(r.value) && fresh(r.value.cells)
    {
      r := CalculateMatrixByOperation(this, other, Multiply);
    }

    /** `this * element`. */
    method TimesElement(element: Value) returns (r: Result<Matrix, Error>)
      requires Valid()
      ensures Produces(r, Broadcast(Contents(), element, Multiply))
      ensures r.Success? ==> fresh(r.value) && fresh(r.value.cells)
    {
      r := CalculateByOperationWithElement(element, Multiply);
    }

    /** `this / other`, elementwise. */
    method Div(other: Matrix) returns (r: Result<Matrix, Error>)
      requires Valid() && other.Valid()
      ensures Produces(r, Combine(Contents(), other.Contents(), Divide))
      ensures r.Success? ==> fresh(r.value) && fresh(r.value.cells)
    {
      r := CalculateMatrixByOperation(this, other, Divide);
    }

    /** `this / element`. */
    method DivElement(element: Value) returns (r: Result<Matrix, Error>)
      requires Valid()
      ensures Produces(r, Broadcast(Contents(), element, Divide))
      ensures r.Success? ==> fresh(r.value) && fresh(r.value.cells)
    {
      r := CalculateByOperationWithElement(element, Divide);
    }
  }

  /** `r` is the matrix (or the error) that the value-level specification `expected` describes. */
  ghost predicate Produces(r: Result<Matrix, Error>, expected: Result<Grid, Error>)
    reads if r.Success? then {r.value.cells} else {}
  {
    match r
    case Failure(e) => expected == Failure(e)
    case Success(m) => m.Valid() && expected == Success(m.Contents())
  }

  /**
   * calculateMatrixByOperation: the shapes must agree; then a new matrix
   * whose cell (i, j) is first[i][j] op second[i][j], filled row by row.
   */
  method CalculateMatrixByOperation(first: Matrix, second: Matrix, op: Operation) returns (r: Result<Matrix, Error>)
    requires first.Valid() && second.Valid()
    ensures Produces(r, Combine(first.Contents(), second.Contents(), op))
    ensures r.Success? ==> fresh(r.value) && fresh(r.value.cells)
  {
    if !(first.RowCount() == second.RowCount() && first.ColCount() == second.ColCount()) {
      return Failure(ShapeMismatch);
    }
    var created := Matrix.Create(first.RowCount(), second.ColCount());
    if created.Failure? {
      assert false;
    }
    var newMatrix := created.value;
    ghost var a, b := first.Contents(), second.Contents();
    var rows, cols := first.RowCount(), first.ColCount();
    var i := 0;
    while i < rows
      invariant 0 <= i <= rows
      invariant forall i', j' :: 0 <= i' < i && 0 <= j' < cols ==>
        CombinedCell(a, b, op, i', j', newMatrix.cells[i', j'])
    {
      var j := 0;
      while j < cols
        invariant 0 <= j <= cols
        invariant forall j' :: 0 <= j' < j ==>
          CombinedCell(a, b, op, i, j', newMatrix.cells[i, j'])
        invariant forall i', j' :: 0 <= i' < i && 0 <= j' < cols ==>
          CombinedCell(a, b, op, i', j', newMatrix.cells[i', j'])
      {
        var v := CalculateByOperation(first.cells[i, j], second.cells[i, j], op);
        assert v == CalculateByOperation(a[i][j], b[i][j], op);
        if v.Failure? {
          FirstFailingCell(a, b, op, newMatrix.Contents(), i, j);
          return Failure(v.error);
        }
        assert CombinedCell(a, b, op, i, j, Some(v.value));
        newMatrix.cells[i, j] := Some(v.value);
        j := j + 1;
      }
      i := i + 1;
    }
    AllCellsSucceed(a, b, op, newMatrix.Contents());
    return Success(newMatrix);
  }

  /**
   * `element + m`, `element - m`, `element * m` and `element / m` as
   * written: each evaluates `m op element`, so the scalar becomes the
   * SECOND operand of every cell.
   */
  method ElementPlus(element: Value, m: Matrix) returns (r: Result<Matrix, Error>)
    requires m.Valid()
    ensures Produces(r, Broadcast(m.Contents(), element, Plus))
    ensures r.Success? ==> fresh(r.value) && fresh(r.value.cells)
  {
    r := m.PlusElement(element);
  }

  method ElementMinus(element: Value, m: Matrix) returns (r: Result<Matrix, Error>)
    requires m.Valid()
    ensures Produces(r, Broadcast(m.Contents(), element, Minus))
    ensures r.Success? ==> fresh(r.value) && fresh(r.value.cells)
  {
    r := m.MinusElement(element);
  }

  method ElementTimes(element: Value, m: Matrix) returns (r: Result<Matrix, Error>)
    requires m.Valid()
    ensures Produces(r, Broadcast(m.Contents(), element, Multiply))
    ensures r.Success? ==> fresh(r.value) && fresh(r.value.cells)
  {
    r := m.TimesElement(element);
  }

  method ElementDiv(element: Value, m: Matrix) returns (r: Result<Matrix, Error>)
    requires m.Valid()
    ensures Produces(r, Broadcast(m.Contents(), element, Divide))
    ensures r.Success? ==> fresh(r.value) && fresh(r.value.cells)
  {
    r := m.DivElement(element);
  }

  /**
   * The scalar-left operation as evidently intended: `element op m` with
   * the scalar as the FIRST operand of every cell, computed by combining a
   * matrix filled with `element` with `m`.
   */
  method CalculateElementByOperation(element: Value, m: Matrix, op: Operation) returns (r: Result<Matrix, Error>)
    requires m.Valid()
    ensures Produces(r, ScalarFirst(element, m.Contents(), op))
    ensures r.Success? ==> fresh(r.value) && fresh(r.value.cells)
  {
    var storage := new Cell[m.RowCount(), m.ColCount()]((_, _) => Some(element));
    var filled := new Matrix(storage);
    SameCells(filled.Contents(), Constant(m.RowCount(), m.ColCount(), Some(element)));
    r := CalculateMatrixByOperation(filled, m, op);
  }
}
