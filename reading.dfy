/**
 * Value-level specification of readMatrix without its console reads: the
 * construction check, the token-count check, parsing every token and the
 * row-major fill of the grid.
 */
module Reading {
  import opened Wrappers
  import opened Errors
  import opened Numeric
  import opened Grids

  /** A row holding the given numbers, every cell populated. */
  function Populated(vs: seq<Value>): (row: seq<Cell>)
    ensures |row| == |vs| && forall k :: 0 <= k < |vs| ==> row[k] == Some(vs[k])
  {
    seq(|vs|, k requires 0 <= k < |vs| => Some(vs[k]))
  }

  /** Cuts a row-major list of `rows * cols` numbers into `rows` rows of `cols` cells. */
  function Unflatten(vs: seq<Value>, rows: nat, cols: nat): Grid
    requires |vs| == rows * cols
    decreases rows
  {
    if rows == 0 then []
    else
      MulNonneg(rows - 1, cols);
      assert |vs| == cols + (rows - 1) * cols;
      [Populated(vs[..cols])] + Unflatten(vs[cols..], rows - 1, cols)
  }

  predicate IsFull(g: Grid) {
    forall i, j :: 0 <= i < |g| && 0 <= j < |g[i]| ==> g[i][j].Some?
  }

  /** The numbers of a row whose every cell is populated. */
  function Values(row: seq<Cell>): (vs: seq<Value>)
    requires forall k :: 0 <= k < |row| ==> row[k].Some?
    ensures |vs| == |row| && forall k :: 0 <= k < |row| ==> row[k] == Some(vs[k])
  {
    seq(|row|, k requires 0 <= k < |row| => row[k].value)
  }

  /** The numbers of a populated grid in row-major order: the inverse of Unflatten. */
  function Flatten(g: Grid): seq<Value>
    requires IsFull(g)
  {
    if |g| == 0 then [] else Values(g[0]) + Flatten(g[1..])
  }

  /** Where row i starts in a row-major list of rows of `cols` numbers: i * cols, counted row by row. */
  function RowStart(i: nat, cols: nat): nat {
    if i == 0 then 0 else RowStart(i - 1, cols) + cols
  }

  lemma {:induction false} RowStartIsProduct(i: nat, cols: nat)
    ensures RowStart(i, cols) == i * cols
  {
    if i > 0 {
      RowStartIsProduct(i - 1, cols);
      assert i * cols == (i - 1) * cols + cols;
    }
  }

  /** Cell (i, j) of the unflattened grid holds number RowStart(i, cols) + j. */
  lemma {:induction false} UnflattenCell(vs: seq<Value>, rows: nat, cols: nat, i: nat, j: nat)
    requires |vs| == rows * cols && i < rows && j < cols
    ensures |Unflatten(vs, rows, cols)| == rows && |Unflatten(vs, rows, cols)[i]| == cols
    ensures RowStart(i, cols) + j < |vs| && Unflatten(vs, rows, cols)[i][j] == Some(vs[RowStart(i, cols) + j])
    decreases i
  {
    MulNonneg(rows - 1, cols);
    assert |vs| == cols + (rows - 1) * cols;
    UnflattenLength(vs, rows, cols);
    if i > 0 {
      UnflattenCell(vs[cols..], rows - 1, cols, i - 1, j);
    }
  }

  lemma {:induction false} UnflattenRow(vs: seq<Value>, rows: nat, cols: nat, i: nat)
    requires |vs| == rows * cols && i < rows
    ensures |Unflatten(vs, rows, cols)| == rows && |Unflatten(vs, rows, cols)[i]| == cols
    decreases i
  {
    MulNonneg(rows - 1, cols);
    assert |vs| == cols + (rows - 1) * cols;
    UnflattenLength(vs, rows, cols);
    if i > 0 {
      UnflattenRow(vs[cols..], rows - 1, cols, i - 1);
    }
  }

  lemma {:induction false} UnflattenLength(vs: seq<Value>, rows: nat, cols: nat)
    requires |vs| == rows * cols
    ensures |Unflatten(vs, rows, cols)| == rows
    decreases rows
  {
    if rows > 0 {
      MulNonneg(rows - 1, cols);
      assert |vs| == cols + (rows - 1) * cols;
      UnflattenLength(vs[cols..], rows - 1, cols);
    }
  }

  /** The unflattened grid has `rows` rows of `cols` cells. */
  lemma UnflattenShape(vs: seq<Value>, rows: nat, cols: nat)
    requires |vs| == rows * cols
    ensures IsShape(Unflatten(vs, rows, cols), rows, cols)
  {
    UnflattenLength(vs, rows, cols);
    forall i | 0 <= i < rows
      ensures |Unflatten(vs, rows, cols)[i]| == cols
    {
      UnflattenRow(vs, rows, cols, i);
    }
  }

  /** Reading back what was cut into rows gives the original list. */
  lemma {:induction false} FlattenUnflatten(vs: seq<Value>, rows: nat, cols: nat)
    requires |vs| == rows * cols
    ensures IsFull(Unflatten(vs, rows, cols))
    ensures Flatten(Unflatten(vs, rows, cols)) == vs
    decreases rows
  {
    if rows > 0 {
      MulNonneg(rows - 1, cols);
      assert |vs| == cols + (rows - 1) * cols;
      var g := Unflatten(vs, rows, cols);
      FlattenUnflatten(vs[cols..], rows - 1, cols);
      assert g[1..] == Unflatten(vs[cols..], rows - 1, cols);
      forall i, j | 0 <= i < |g| && 0 <= j < |g[i]|
        ensures g[i][j].Some?
      {
        if i > 0 {
          assert g[i] == g[1..][i - 1];
        }
      }
      assert Values(g[0]) == vs[..cols];
      assert vs == vs[..cols] + vs[cols..];
    }
  }

  /** Cutting the row-major list of a populated matrix back into rows gives the matrix. */
  lemma {:induction false} UnflattenFlatten(g: Grid, cols: nat)
    requires IsFull(g) && IsShape(g, |g|, cols)
    ensures |Flatten(g)| == |g| * cols
    ensures Unflatten(Flatten(g), |g|, cols) == g
    decreases |g|
  {
    if |g| > 0 {
      var rest := g[1..];
      UnflattenFlatten(rest, cols);
      var f := Flatten(g);
      assert f == Values(g[0]) + Flatten(rest);
      assert |f| == |g| * cols;
      assert f[..cols] == Values(g[0]) && f[cols..] == Flatten(rest);
      assert Populated(Values(g[0])) == g[0];
      assert g == [g[0]] + rest;
    }
  }

  /** Parses every token in order; one token that is not a number fails the whole list. */
  function ParseAll(tokens: seq<string>, parse: string -> Option<Value>): (r: Option<seq<Value>>)
    ensures r.Some? <==> forall k :: 0 <= k < |tokens| ==> parse(tokens[k]).Some?
    ensures r.Some? ==>
      |r.value| == |tokens| && forall k :: 0 <= k < |tokens| ==> parse(tokens[k]) == Some(r.value[k])
    decreases |tokens|
  {
    if |tokens| == 0 then Some([])
    else
      match parse(tokens[0])
      case None => None
      case Some(v) =>
        match ParseAll(tokens[1..], parse)
        case None => None
        case Some(rest) => Some([v] + rest)
  }

  /**
   * readMatrix after its console reads: construction (positive dimensions),
   * the token-count check against the exact product rowCount * colCount,
   * parsing, then the row-major fill.
   */
  function ReadGrid(rowCount: int, colCount: int, tokens: seq<string>, parse: string -> Option<Value>): Result<Grid, Error>
  {
    if !(rowCount > 0 && colCount > 0) then Failure(InvalidSize)
    else if |tokens| != rowCount * colCount then Failure(SizeMismatch)
    else
      match ParseAll(tokens, parse)
      case None => Failure(IncorrectInput)
      case Some(vs) => Success(Unflatten(vs, rowCount, colCount))
  }

  /**
   * Reading fails exactly on non-positive dimensions, a token count other
   * than rowCount * colCount, or a token that is not a number, and it
   * reports them in that order.
   */
  lemma ReadGridOutcome(rowCount: int, colCount: int, tokens: seq<string>, parse: string -> Option<Value>)
    ensures ReadGrid(rowCount, colCount, tokens, parse) == Failure(InvalidSize) <==> !(rowCount > 0 && colCount > 0)
    ensures ReadGrid(rowCount, colCount, tokens, parse) == Failure(SizeMismatch) <==>
      rowCount > 0 && colCount > 0 && |tokens| != rowCount * colCount
    ensures ReadGrid(rowCount, colCount, tokens, parse).Success? <==>
      && rowCount > 0 && colCount > 0 && |tokens| == rowCount * colCount
      && forall k :: 0 <= k < |tokens| ==> parse(tokens[k]).Some?
  {
  }

  /**
   * A successful read has the declared shape, every cell is populated, and
   * cell (i, j) holds the number of token RowStart(i, colCount) + j, that is
   * token i * colCount + j.
   */
  lemma ReadGridCells(rowCount: int, colCount: int, tokens: seq<string>, parse: string -> Option<Value>)
    requires ReadGrid(rowCount, colCount, tokens, parse).Success?
    ensures rowCount > 0 && colCount > 0
    ensures IsShape(ReadGrid(rowCount, colCount, tokens, parse).value, rowCount, colCount)
    ensures IsFull(ReadGrid(rowCount, colCount, tokens, parse).value)
    ensures forall i :: 0 <= i < rowCount ==> RowStart(i, colCount) + colCount <= |tokens|
    ensures forall i, j :: 0 <= i < rowCount && 0 <= j < colCount ==>
      ReadGrid(rowCount, colCount, tokens, parse).value[i][j] == parse(tokens[RowStart(i, colCount) + j])
  {
    var vs := ParseAll(tokens, parse).value;
    assert ReadGrid(rowCount, colCount, tokens, parse) == Success(Unflatten(vs, rowCount, colCount));
    ParsedLayout(tokens, parse, vs, rowCount, colCount);
  }

  /** The row-major layout of parsed tokens: cell (i, j) is the number of token RowStart(i, cols) + j. */
  lemma ParsedLayout(tokens: seq<string>, parse: string -> Option<Value>, vs: seq<Value>, rows: nat, cols: nat)
    requires |vs| == |tokens| == rows * cols
    requires forall k :: 0 <= k < |tokens| ==> parse(tokens[k]) == Some(vs[k])
    ensures IsShape(Unflatten(vs, rows, cols), rows, cols)
    ensures forall i :: 0 <= i < rows ==> RowStart(i, cols) + cols <= |tokens|
    ensures forall i, j :: 0 <= i < rows && 0 <= j < cols ==>
      Unflatten(vs, rows, cols)[i][j] == parse(tokens[RowStart(i, cols) + j]) && Unflatten(vs, rows, cols)[i][j].Some?
  {
    UnflattenShape(vs, rows, cols);
    forall i | 0 <= i < rows
      ensures RowStart(i, cols) + cols <= |tokens|
    {
      if cols == 0 {
        RowStartIsProduct(i, cols);
      } else {
        ParsedCell(tokens, parse, vs, rows, cols, i, cols - 1);
      }
    }
    forall i, j | 0 <= i < rows && 0 <= j < cols
      ensures Unflatten(vs, rows, cols)[i][j] == parse(tokens[RowStart(i, cols) + j])
      ensures Unflatten(vs, rows, cols)[i][j].Some?
    {
      ParsedCell(tokens, parse, vs, rows, cols, i, j);
    }
  }

  lemma ParsedCell(tokens: seq<string>, parse: string -> Option<Value>, vs: seq<Value>, rows: nat, cols: nat, i: nat, j: nat)
    requires |vs| == |tokens| == rows * cols
    requires forall k :: 0 <= k < |tokens| ==> parse(tokens[k]) == Some(vs[k])
    requires i < rows && j < cols
    ensures |Unflatten(vs, rows, cols)| == rows && |Unflatten(vs, rows, cols)[i]| == cols
    ensures RowStart(i, cols) + j < |tokens|
    ensures Unflatten(vs, rows, cols)[i][j] == parse(tokens[RowStart(i, cols) + j])
    ensures Unflatten(vs, rows, cols)[i][j].Some?
  {
    UnflattenCell(vs, rows, cols, i, j);
  }

  /**
   * The token-count check as written: `numbers.size != rowCount * colCount`
   * with the product in 32-bit Int arithmetic.
   */
  predicate TokenCountAcceptedAsWritten(rowCount: Int32, colCount: Int32, size: nat) {
    size == Wrap(rowCount as int * colCount as int, INT_HALF)
  }

  /**
   * 65536 rows of 65537 columns need 4295032832 tokens, but the wrapped
   * product is 65536, so 65536 tokens pass the check as written; the exact
   * check rejects them.
   */
  lemma WrappedTokenCheckAdmitsTooFewTokens(tokens: seq<string>, parse: string -> Option<Value>)
    requires |tokens| == 65536
    ensures TokenCountAcceptedAsWritten(65536, 65537, |tokens|)
    ensures |tokens| < 65536 * 65537
    ensures ReadGrid(65536, 65537, tokens, parse) == Failure(SizeMismatch)
  {
    assert 65536 * 65537 == 0x1_0001_0000;
    assert Wrap(0x1_0001_0000, INT_HALF) == 65536 by {
      WrapUnique(0x1_0001_0000, 65536, INT_HALF);
    }
  }

  /**
   * Dimensions 2 and 3 with six numeric tokens give the rows [1, 2, 3] and
   * [4, 5, 6]; with only the first five tokens the read fails with
   * SizeMismatch.
   */
  lemma ReadTwoByThree(tokens: seq<string>, parse: string -> Option<Value>)
    requires |tokens| == 6
    requires forall k :: 0 <= k < 6 ==> parse(tokens[k]) == Some(IntVal(k as Int32 + 1))
    ensures ReadGrid(2, 3, tokens, parse) ==
      Success([[IntCell(1), IntCell(2), IntCell(3)], [IntCell(4), IntCell(5), IntCell(6)]])
    ensures ReadGrid(2, 3, tokens[..5], parse) == Failure(SizeMismatch)
  {
    var expected := [[IntCell(1), IntCell(2), IntCell(3)], [IntCell(4), IntCell(5), IntCell(6)]];
    ReadGridCells(2, 3, tokens, parse);
    var g := ReadGrid(2, 3, tokens, parse).value;
    forall i, j | 0 <= i < 2 && 0 <= j < 3
      ensures g[i][j] == expected[i][j]
    {
      assert g[i][j] == parse(tokens[RowStart(i, 3) + j]);
    }
    SameCells(g, expected);
  }
}
