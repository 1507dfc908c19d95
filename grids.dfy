/**
 * Value-level specification of the elementwise engine: a matrix's cells as a
 * sequence of rows, the row-major combination of two grids, scalar broadcast
 * and the row-major fill used when reading a matrix.
 */
module Grids {
  import opened Wrappers
  import opened Errors
  import opened Numeric

  /** The cells of a matrix, row by row. */
  type Grid = seq<seq<Cell>>

  predicate IsShape(g: Grid, rows: nat, cols: nat) {
    |g| == rows && forall i :: 0 <= i < rows ==> |g[i]| == cols
  }

  /** The shape every matrix has: at least one row, at least one column, all rows equally long. */
  predicate IsMatrix(g: Grid) {
    |g| > 0 && |g[0]| > 0 && IsShape(g, |g|, |g[0]|)
  }

  predicate SameShape(a: Grid, b: Grid) {
    |a| == |b| && forall i :: 0 <= i < |a| ==> |a[i]| == |b[i]|
  }

  /** Grids of one shape that agree on every cell are equal. */
  lemma SameCells(a: Grid, b: Grid)
    requires SameShape(a, b)
    requires forall i, j :: 0 <= i < |a| && 0 <= j < |a[i]| ==> a[i][j] == b[i][j]
    ensures a == b
  {
    forall i | 0 <= i < |a|
      ensures a[i] == b[i]
    {
    }
  }

  /** The grid of the given shape whose every cell is `c`. */
  function Constant(rows: nat, cols: nat, c: Cell): (g: Grid)
    ensures IsShape(g, rows, cols)
    ensures forall i, j :: 0 <= i < rows && 0 <= j < cols ==> g[i][j] == c
  {
    seq(rows, _ => seq(cols, _ => c))
  }

  /**
   * One row of the combination, cell by cell from left to right; the first
   * cell whose dispatch fails decides the error.
   */
  function CombineRow(x: seq<Cell>, y: seq<Cell>, op: Operation): (r: Result<seq<Cell>, Error>)
    requires |x| == |y|
    ensures r.Success? <==> forall k :: 0 <= k < |x| ==> CalculateByOperation(x[k], y[k], op).Success?
    ensures r.Success? ==>
      |r.value| == |x| && forall k :: 0 <= k < |x| ==> r.value[k] == Some(CalculateByOperation(x[k], y[k], op).value)
    ensures r.Failure? ==> IsCellError(r.error)
    decreases |x|
  {
    if |x| == 0 then Success([])
    else
      var n := |x| - 1;
      match CombineRow(x[..n], y[..n], op)
      case Failure(e) => Failure(e)
      case Success(done) =>
        match CalculateByOperation(x[n], y[n], op)
        case Failure(e) => Failure(e)
        case Success(v) => Success(done + [Some(v)])
  }

  /** All rows of the combination, top to bottom. */
  function CombineGrid(a: Grid, b: Grid, op: Operation): (r: Result<Grid, Error>)
    requires SameShape(a, b)
    ensures r.Success? <==>
      forall i, j :: 0 <= i < |a| && 0 <= j < |a[i]| ==> CalculateByOperation(a[i][j], b[i][j], op).Success?
    ensures r.Success? ==>
      && SameShape(r.value, a)
      && forall i, j :: 0 <= i < |a| && 0 <= j < |a[i]| ==>
           r.value[i][j] == Some(CalculateByOperation(a[i][j], b[i][j], op).value)
    ensures r.Failure? ==> IsCellError(r.error)
    decreases |a|
  {
    if |a| == 0 then Success([])
    else
      var n := |a| - 1;
      match CombineGrid(a[..n], b[..n], op)
      case Failure(e) => Failure(e)
      case Success(done) =>
        match CombineRow(a[n], b[n], op)
        case Failure(e) => Failure(e)
        case Success(row) => Success(done + [row])
  }

  /** calculateMatrixByOperation on values: the shape check, then every cell. */
  function Combine(a: Grid, b: Grid, op: Operation): (r: Result<Grid, Error>)
    requires IsMatrix(a) && IsMatrix(b)
    ensures r == Failure(ShapeMismatch) <==> |a| != |b| || |a[0]| != |b[0]|
    ensures r.Success? <==>
      && |a| == |b| && |a[0]| == |b[0]|
      && forall i, j :: 0 <= i < |a| && 0 <= j < |a[0]| ==> CalculateByOperation(a[i][j], b[i][j], op).Success?
    ensures r.Success? ==>
      && IsShape(r.value, |a|, |a[0]|)
      && forall i, j :: 0 <= i < |a| && 0 <= j < |a[0]| ==>
           r.value[i][j] == Some(CalculateByOperation(a[i][j], b[i][j], op).value)
  {
    if |a| == |b| && |a[0]| == |b[0]| then CombineGrid(a, b, op) else Failure(ShapeMismatch)
  }

  /** calculateByOperationWithElement on values: `s` is broadcast as the second operand of every cell. */
  function Broadcast(g: Grid, s: Value, op: Operation): (r: Result<Grid, Error>)
    requires IsMatrix(g)
    ensures r.Success? <==>
      forall i, j :: 0 <= i < |g| && 0 <= j < |g[0]| ==> CalculateByOperation(g[i][j], Some(s), op).Success?
    ensures r.Success? ==>
      && IsShape(r.value, |g|, |g[0]|)
      && forall i, j :: 0 <= i < |g| && 0 <= j < |g[0]| ==>
           r.value[i][j] == Some(CalculateByOperation(g[i][j], Some(s), op).value)
    ensures r.Failure? ==> IsCellError(r.error)
  {
    CombineGrid(g, Constant(|g|, |g[0]|, Some(s)), op)
  }

  /** `s op M` with the scalar as the FIRST operand of every cell. */
  function ScalarFirst(s: Value, g: Grid, op: Operation): (r: Result<Grid, Error>)
    requires IsMatrix(g)
    ensures r.Success? <==>
      forall i, j :: 0 <= i < |g| && 0 <= j < |g[0]| ==> CalculateByOperation(Some(s), g[i][j], op).Success?
    ensures r.Success? ==>
      && IsShape(r.value, |g|, |g[0]|)
      && forall i, j :: 0 <= i < |g| && 0 <= j < |g[0]| ==>
           r.value[i][j] == Some(CalculateByOperation(Some(s), g[i][j], op).value)
    ensures r.Failure? ==> IsCellError(r.error)
  {
    CombineGrid(Constant(|g|, |g[0]|, Some(s)), g, op)
  }

  /** Extending a successful row prefix by one cell: the cell's value is appended, or its error is the row's. */
  lemma CombineRowExtend(x: seq<Cell>, y: seq<Cell>, op: Operation, j: nat, done: seq<Cell>)
    requires |x| == |y| && j < |x|
    requires CombineRow(x[..j], y[..j], op) == Success(done)
    ensures CombineRow(x[..j + 1], y[..j + 1], op) ==
      match CalculateByOperation(x[j], y[j], op)
      case Failure(e) => Failure(e)
      case Success(v) => Success(done + [Some(v)])
  {
    assert x[..j + 1][..j] == x[..j] && y[..j + 1][..j] == y[..j];
  }

  /** Extending a successful prefix of rows by one row. */
  lemma CombineGridExtend(a: Grid, b: Grid, op: Operation, i: nat, done: Grid)
    requires SameShape(a, b) && i < |a|
    requires CombineGrid(a[..i], b[..i], op) == Success(done)
    ensures CombineGrid(a[..i + 1], b[..i + 1], op) ==
      match CombineRow(a[i], b[i], op)
      case Failure(e) => Failure(e)
      case Success(row) => Success(done + [row])
  {
    assert a[..i + 1][..i] == a[..i] && b[..i + 1][..i] == b[..i];
  }

  /** Once a prefix of a row fails, the whole row fails with the same error: later cells are never reached. */
  lemma {:induction false} CombineRowPrefixFailure(x: seq<Cell>, y: seq<Cell>, op: Operation, k: nat)
    requires |x| == |y| && k <= |x|
    requires CombineRow(x[..k], y[..k], op).Failure?
    ensures CombineRow(x, y, op) == CombineRow(x[..k], y[..k], op)
    decreases |x| - k
  {
    if k < |x| {
      assert x[..k + 1][..k] == x[..k] && y[..k + 1][..k] == y[..k];
      CombineRowPrefixFailure(x, y, op, k + 1);
    } else {
      assert x[..k] == x && y[..k] == y;
    }
  }

  /** Once a prefix of the rows fails, the whole grid fails with the same error. */
  lemma {:induction false} CombineGridPrefixFailure(a: Grid, b: Grid, op: Operation, k: nat)
    requires SameShape(a, b) && k <= |a|
    requires CombineGrid(a[..k], b[..k], op).Failure?
    ensures CombineGrid(a, b, op) == CombineGrid(a[..k], b[..k], op)
    decreases |a| - k
  {
    if k < |a| {
      assert a[..k + 1][..k] == a[..k] && b[..k + 1][..k] == b[..k];
      assert CombineGrid(a[..k + 1], b[..k + 1], op) == CombineGrid(a[..k], b[..k], op);
      CombineGridPrefixFailure(a, b, op, k + 1);
    } else {
      assert a[..k] == a && b[..k] == b;
    }
  }

  /**
   * Failure at a cell after successful prefixes: every cell before (i, j)
   * in row-major order succeeded and (i, j) fails.
   */
  lemma FailureAtCell(a: Grid, b: Grid, op: Operation, i: nat, j: nat, done: Grid, row: seq<Cell>)
    requires SameShape(a, b) && i < |a| && j < |a[i]|
    requires CombineGrid(a[..i], b[..i], op) == Success(done)
    requires CombineRow(a[i][..j], b[i][..j], op) == Success(row)
    requires CalculateByOperation(a[i][j], b[i][j], op).Failure?
    ensures CombineGrid(a, b, op) == Failure(CalculateByOperation(a[i][j], b[i][j], op).error)
  {
    CombineRowExtend(a[i], b[i], op, j, row);
    CombineRowPrefixFailure(a[i], b[i], op, j + 1);
    CombineGridExtend(a, b, op, i, done);
    CombineGridPrefixFailure(a, b, op, i + 1);
  }

  /** Cell (i, j) of the combination of `a` and `b` under `op` succeeds and holds `c`. */
  predicate CombinedCell(a: Grid, b: Grid, op: Operation, i: int, j: int, c: Cell) {
    && 0 <= i < |a| && i < |b| && 0 <= j < |a[i]| && j < |b[i]|
    && c.Some? && CalculateByOperation(a[i][j], b[i][j], op) == Success(c.value)
  }

  /**
   * The first failing cell in row-major order decides the error: if every
   * cell of the rows above row i and every cell left of (i, j) succeeds
   * (holding what `g` holds) and (i, j) fails, the combination fails with
   * the error of (i, j).
   */
  lemma FirstFailingCell(a: Grid, b: Grid, op: Operation, g: Grid, i: nat, j: nat)
    requires SameShape(a, b) && SameShape(g, a) && i < |a| && j < |a[i]|
    requires forall i', j' :: 0 <= i' < i && 0 <= j' < |a[i']| ==> CombinedCell(a, b, op, i', j', g[i'][j'])
    requires forall j' :: 0 <= j' < j ==> CombinedCell(a, b, op, i, j', g[i][j'])
    requires CalculateByOperation(a[i][j], b[i][j], op).Failure?
    ensures CombineGrid(a, b, op) == Failure(CalculateByOperation(a[i][j], b[i][j], op).error)
  {
    var done := CombineGrid(a[..i], b[..i], op);
    assert done.Success? by {
      forall i', j' | 0 <= i' < |a[..i]| && 0 <= j' < |a[..i][i']|
        ensures CalculateByOperation(a[..i][i'][j'], b[..i][i'][j'], op).Success?
      {
        assert a[..i][i'] == a[i'] && b[..i][i'] == b[i'];
        assert CombinedCell(a, b, op, i', j', g[i'][j']);
      }
    }
    var row := CombineRow(a[i][..j], b[i][..j], op);
    assert row.Success? by {
      forall j' | 0 <= j' < j
        ensures CalculateByOperation(a[i][..j][j'], b[i][..j][j'], op).Success?
      {
        assert a[i][..j][j'] == a[i][j'] && b[i][..j][j'] == b[i][j'];
        assert CombinedCell(a, b, op, i, j', g[i][j']);
      }
    }
    FailureAtCell(a, b, op, i, j, done.value, row.value);
  }

  /** A grid that holds the dispatch result of every cell is what CombineGrid returns. */
  lemma AllCellsSucceed(a: Grid, b: Grid, op: Operation, g: Grid)
    requires SameShape(a, b) && SameShape(g, a)
    requires forall i, j :: 0 <= i < |a| && 0 <= j < |a[i]| ==> CombinedCell(a, b, op, i, j, g[i][j])
    ensures CombineGrid(a, b, op) == Success(g)
  {
    forall i, j | 0 <= i < |a| && 0 <= j < |a[i]|
      ensures CalculateByOperation(a[i][j], b[i][j], op).Success?
      ensures g[i][j] == Some(CalculateByOperation(a[i][j], b[i][j], op).value)
    {
      assert CombinedCell(a, b, op, i, j, g[i][j]);
    }
    SameCells(CombineGrid(a, b, op).value, g);
  }

  /** Elementwise PLUS and MULTIPLY commute: `A + B == B + A` and `A * B == B * A`. */
  lemma CombineCommutes(a: Grid, b: Grid, op: Operation)
    requires IsMatrix(a) && IsMatrix(b)
    requires op == Plus || op == Multiply
    ensures Combine(a, b, op).Success? <==> Combine(b, a, op).Success?
    ensures Combine(a, b, op).Success? ==> Combine(b, a, op) == Combine(a, b, op)
  {
    if |a| == |b| && |a[0]| == |b[0]| {
      forall i, j | 0 <= i < |a| && 0 <= j < |a[0]|
        ensures CalculateByOperation(a[i][j], b[i][j], op).Success? <==> CalculateByOperation(b[i][j], a[i][j], op).Success?
        ensures CalculateByOperation(a[i][j], b[i][j], op).Success? ==>
          CalculateByOperation(b[i][j], a[i][j], op) == CalculateByOperation(a[i][j], b[i][j], op)
      {
        CalculateCommutes(a[i][j], b[i][j], op);
      }
      if Combine(a, b, op).Success? {
        SameCells(Combine(b, a, op).value, Combine(a, b, op).value);
      }
    }
  }

  /**
   * For PLUS and MULTIPLY, putting the scalar first or second gives the same
   * matrix, so `s + M == M + s` and `s * M == M * s` are sound definitions.
   */
  lemma ScalarSidesAgree(s: Value, g: Grid, op: Operation)
    requires IsMatrix(g)
    requires op == Plus || op == Multiply
    ensures ScalarFirst(s, g, op).Success? <==> Broadcast(g, s, op).Success?
    ensures ScalarFirst(s, g, op).Success? ==> ScalarFirst(s, g, op) == Broadcast(g, s, op)
  {
    forall i, j | 0 <= i < |g| && 0 <= j < |g[0]|
      ensures CalculateByOperation(Some(s), g[i][j], op).Success? <==> CalculateByOperation(g[i][j], Some(s), op).Success?
      ensures CalculateByOperation(Some(s), g[i][j], op).Success? ==>
        CalculateByOperation(g[i][j], Some(s), op) == CalculateByOperation(Some(s), g[i][j], op)
    {
      CalculateCommutes(Some(s), g[i][j], op);
    }
    if ScalarFirst(s, g, op).Success? {
      SameCells(ScalarFirst(s, g, op).value, Broadcast(g, s, op).value);
    }
  }

  /**
   * `s - M` as written computes `M - s`, and `s / M` computes `M / s`:
   * 10 - [[1]] gives [[-9]] instead of [[9]]; 10 / [[2]] gives [[0]]
   * instead of [[5]]; 0 / [[5]] fails with a division by zero instead of
   * giving [[0]].
   */
  lemma ScalarLeftSwapsOperands()
    ensures Broadcast([[IntCell(1)]], IntVal(10), Minus) == Success([[IntCell(-9)]])
    ensures ScalarFirst(IntVal(10), [[IntCell(1)]], Minus) == Success([[IntCell(9)]])
    ensures Broadcast([[IntCell(2)]], IntVal(10), Divide) == Success([[IntCell(0)]])
    ensures ScalarFirst(IntVal(10), [[IntCell(2)]], Divide) == Success([[IntCell(5)]])
    ensures Broadcast([[IntCell(5)]], IntVal(0), Divide) == Failure(DivisionByZero)
    ensures ScalarFirst(IntVal(0), [[IntCell(5)]], Divide) == Success([[IntCell(0)]])
  {
    OneCellBothSides(1, 10, Minus, Success(IntVal(-9)), Success(IntVal(9)));
    OneCellBothSides(2, 10, Divide, Success(IntVal(0)), Success(IntVal(5)));
    OneCellBothSides(5, 0, Divide, Failure(DivisionByZero), Success(IntVal(0)));
  }

  /** `[[x]] op s` and `s op [[x]]` on one Int cell, given the two dispatch results. */
  lemma OneCellBothSides(x: Int32, s: Int32, op: Operation, mOpS: Result<Value, Error>, sOpM: Result<Value, Error>)
    requires CalculateByOperation(IntCell(x), IntCell(s), op) == mOpS
    requires CalculateByOperation(IntCell(s), IntCell(x), op) == sOpM
    ensures Broadcast([[IntCell(x)]], IntVal(s), op) ==
      match mOpS
      case Failure(e) => Failure(e)
      case Success(v) => Success([[Some(v)]])
    ensures ScalarFirst(IntVal(s), [[IntCell(x)]], op) ==
      match sOpM
      case Failure(e) => Failure(e)
      case Success(v) => Success([[Some(v)]])
  {
    SingleConstant(IntCell(s));
    SingleCell(IntCell(x), IntCell(s), op);
    SingleCell(IntCell(s), IntCell(x), op);
  }

  /** A 1 x 1 constant grid is the one-cell grid. */
  lemma SingleConstant(c: Cell)
    ensures Constant(1, 1, c) == [[c]]
  {
    var g := Constant(1, 1, c);
    assert g[0] == [c];
  }

  /** Combining two one-cell grids dispatches their cells once. */
  lemma SingleCell(x: Cell, y: Cell, op: Operation)
    ensures CombineGrid([[x]], [[y]], op) ==
      match CalculateByOperation(x, y, op)
      case Failure(e) => Failure(e)
      case Success(v) => Success([[Some(v)]])
  {
    assert [[x]][..0] == [] && [[y]][..0] == [];
    assert [x][..0] == [] && [y][..0] == [];
    assert [[x]][0] == [x] && [[y]][0] == [y];
    assert CombineGrid([], [], op) == Success([]);
    assert CombineRow([], [], op) == Success([]);
    match CalculateByOperation(x, y, op)
    case Failure(e) =>
      assert CombineRow([x], [y], op) == Failure(e);
    case Success(v) =>
      var row: seq<Cell>, done: Grid := [Some(v)], [];
      assert [] + row == row && done + [row] == [row];
      assert CombineRow([x], [y], op) == Success(row);
  }

  function IntCell(x: Int32): Cell {
    Some(IntVal(x))
  }

  /** `[[1, 2], [3, 4]] + [[5, 6], [7, 8]] == [[6, 8], [10, 12]]` for Int matrices. */
  lemma AddTwoByTwo()
    ensures Combine([[IntCell(1), IntCell(2)], [IntCell(3), IntCell(4)]],
                    [[IntCell(5), IntCell(6)], [IntCell(7), IntCell(8)]], Plus)
      == Success([[IntCell(6), IntCell(8)], [IntCell(10), IntCell(12)]])
  {
    var a := [[IntCell(1), IntCell(2)], [IntCell(3), IntCell(4)]];
    var b := [[IntCell(5), IntCell(6)], [IntCell(7), IntCell(8)]];
    var g := [[IntCell(6), IntCell(8)], [IntCell(10), IntCell(12)]];
    forall i, j | 0 <= i < 2 && 0 <= j < 2
      ensures CombinedCell(a, b, Plus, i, j, g[i][j])
    {
      assert CalculateByOperation(a[i][j], b[i][j], Plus) == Success(g[i][j].value);
    }
    AllCellsSucceed(a, b, Plus, g);
  }

  /**
   * An Int matrix `[[1, 2, 4]]` divided by `[[1, 2, 0]]` fails with
   * DivisionByZero at the third cell, after the first two succeeded.
   */
  lemma DivideByZeroCell()
    ensures Combine([[IntCell(1), IntCell(2), IntCell(4)]], [[IntCell(1), IntCell(2), IntCell(0)]], Divide)
      == Failure(DivisionByZero)
  {
    var a := [[IntCell(1), IntCell(2), IntCell(4)]];
    var b := [[IntCell(1), IntCell(2), IntCell(0)]];
    var g := [[IntCell(1), IntCell(1), None]];
    forall j | 0 <= j < 2
      ensures CombinedCell(a, b, Divide, 0, j, g[0][j])
    {
      assert CalculateByOperation(a[0][j], b[0][j], Divide) == Success(IntVal(1));
    }
    FirstFailingCell(a, b, Divide, g, 0, 2);
  }
}
