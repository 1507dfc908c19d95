# MatrixKit in Dafny

A model of the elementwise matrix arithmetic of the Kotlin library `matrix`
(`src/matrix/MatrixKit.kt`), restricted to the integer kinds `Int` and `Long`:

- validated construction of a matrix of empty cells (`Matrix.Companion.invoke`);
- the per-cell dispatcher `calculateByOperation`, which picks the operator of the
  first operand's runtime kind, casts the second operand to that kind and applies
  PLUS, MINUS, MULTIPLY or DIVIDE with the JVM's 32- or 64-bit semantics;
- the two combinators that allocate a fresh matrix and fill it row by row:
  `calculateMatrixByOperation` (matrix op matrix, with a shape check) and
  `calculateByOperationWithElement` (matrix op scalar);
- the operator wrappers `plus`, `minus`, `times` and `div` in their three forms:
  matrix–matrix, matrix–scalar and scalar–matrix;
- the part of `readMatrix` that follows the console reads: construction, the
  token-count check, parsing of every token and the row-major fill driven by a
  running counter.

Layout:

- `wrappers.dfy`: `Option` and `Result`.
- `errors.dfy`: the exceptions the library throws, as one error type.
- `numeric.dfy`: the fixed-width kinds, two's-complement wrap-around, truncating
  division and the dispatcher.
- `grids.dfy`: matrices as values (`seq<seq<Cell>>`) and the value-level
  specifications of both combinators and of the scalar-left operators.
- `reading.dfy`: the token list, the row-major layout and the specification of
  reading.
- `matrix.dfy`: the `Matrix` class over an `array2`, its imperative operations
  proved against the value-level specifications, and the operator wrappers.

A cell is `Option<Value>`. `None` is the `null` that construction leaves in
every cell. A `Value` is an `Int` (`Int32`) or a `Long` (`Int64`). Every exception
becomes a `Failure` with the matching `Error`:

- non-positive dimensions give `InvalidSize`;
- a token count that differs from `rowCount * colCount` gives `SizeMismatch`;
- a token that does not parse gives `IncorrectInput`;
- matrices of different shapes give `ShapeMismatch`;
- an empty first operand gives `NotANumberType`, which is the `else` branch of the dispatcher;
- an empty second operand, or one of the other kind, gives `CastFailure`, which is the failing `as Int` or `as Long`;
- an integer division by zero gives `DivisionByZero`, the JVM's `ArithmeticException`.

The combinators stop at the first failing cell in row-major order and report
that cell's error, as the exception would.

## Model

| member | source | states |
|---|---|---|
| Numeric.Wrap | src/matrix/MatrixKit.kt:151-153 | the wrapped result lies in the signed range, is congruent to the exact result modulo 2·half, and equals it when it fits |
| Numeric.WrapUnique | src/matrix/MatrixKit.kt:151-153 | the wrapped value is the only value in the signed range congruent to the exact result |
| Numeric.TruncDivIsTruncating | src/matrix/MatrixKit.kt:154 | integer `/` truncates toward zero: the remainder is smaller than the divisor, is zero or has the dividend's sign, and the quotient times the divisor never exceeds the dividend in magnitude |
| Numeric.CalculateByOperation | src/matrix/MatrixKit.kt:147-183 | the dispatcher succeeds exactly when both cells hold numbers of the same kind and it is not a division by zero. An empty first cell fails with NotANumberType. An empty or other-kind second cell fails with CastFailure. A zero divisor fails with DivisionByZero. A result keeps the first operand's kind, and every failure is a cell error |
| Numeric.CalculateArithmetic | src/matrix/MatrixKit.kt:149-164 | a successful Int (Long) result is congruent to the exact sum, difference, product or truncated quotient modulo 2^32 (2^64), and equals it when the exact value fits |
| Numeric.CalculateIsWrappedExact | src/matrix/MatrixKit.kt:149-164 | a successful result is the unique value of the operand's kind congruent to the exact result |
| Numeric.CalculateCommutes | src/matrix/MatrixKit.kt:151-161 | PLUS and MULTIPLY succeed on (a, b) exactly when they succeed on (b, a), and then give the same value |
| Numeric.WrapAroundExamples | src/matrix/MatrixKit.kt:151-162 | Int.MAX_VALUE + 1 is Int.MIN_VALUE, Int.MIN_VALUE / -1 is Int.MIN_VALUE, -7 / 2 is -3, Long.MAX_VALUE + 1 is Long.MIN_VALUE and Long.MIN_VALUE * -1 is Long.MIN_VALUE |
| Grids.Constant | src/matrix/MatrixKit.kt:18 | a rows × cols grid whose every cell is the given cell |
| Grids.CombineRow | src/matrix/MatrixKit.kt:139-141 | one row succeeds exactly when every cell's dispatch succeeds, and then holds each cell's result; a failure is a cell error |
| Grids.CombineGrid | src/matrix/MatrixKit.kt:138-142 | all rows succeed exactly when every cell's dispatch succeeds, and the result has the operands' shape and each cell's result |
| Grids.Combine | src/matrix/MatrixKit.kt:131-145 | fails with ShapeMismatch exactly when the shapes differ. Otherwise it succeeds exactly when every cell succeeds, and cell (i, j) is first[i][j] op second[i][j] in a matrix of the operands' shape |
| Grids.Broadcast | src/matrix/MatrixKit.kt:119-129 | succeeds exactly when every `this[i][j] op element` succeeds; the result has the receiver's shape and those cells |
| Grids.ScalarFirst | src/matrix/MatrixKit.kt:77-116 | the evidently intended `element op m`: cell (i, j) is `element op m[i][j]`, with the receiver's shape |
| Grids.CombineRowPrefixFailure | src/matrix/MatrixKit.kt:139-141 | once a prefix of a row fails, the whole row fails with the same error |
| Grids.CombineGridPrefixFailure | src/matrix/MatrixKit.kt:138-142 | once a prefix of the rows fails, the whole matrix fails with the same error |
| Grids.FailureAtCell | src/matrix/MatrixKit.kt:138-142 | a failure at (i, j) after successful earlier rows and earlier cells is the error of the whole combination |
| Grids.FirstFailingCell | src/matrix/MatrixKit.kt:138-142 | the first failing cell in row-major order decides the error of the combination |
| Grids.AllCellsSucceed | src/matrix/MatrixKit.kt:138-144 | a grid that holds every cell's successful result is the combination's result |
| Grids.CombineCommutes | src/matrix/MatrixKit.kt:69-97 | `A + B == B + A` and `A * B == B * A`, including which pairs fail |
| Grids.ScalarSidesAgree | src/matrix/MatrixKit.kt:77-103 | for PLUS and MULTIPLY, scalar-first and scalar-second succeed together and agree |
| Grids.ScalarLeftSwapsOperands | src/matrix/MatrixKit.kt:90-116 | the scalar-left operators as written differ from scalar-first: `10 - [[1]]` gives `[[-9]]` instead of `[[9]]`, `10 / [[2]]` gives `[[0]]` instead of `[[5]]`, and `0 / [[5]]` fails with DivisionByZero instead of giving `[[0]]` |
| Grids.SingleConstant | src/matrix/MatrixKit.kt:119-129 | the 1 × 1 matrix filled with c is `[[c]]` |
| Grids.SingleCell | src/matrix/MatrixKit.kt:131-145 | combining two 1 × 1 matrices gives `[[x op y]]`, or the error of `x op y` |
| Grids.OneCellBothSides | src/matrix/MatrixKit.kt:77-129 | on a 1 × 1 Int matrix `[[x]]` and a scalar s, the as-written scalar-left form gives `x op s` and the scalar-first form gives `s op x` |
| Grids.AddTwoByTwo | src/matrix/MatrixKit.kt:69-71 | `[[1, 2], [3, 4]] + [[5, 6], [7, 8]] == [[6, 8], [10, 12]]` for Int matrices |
| Grids.DivideByZeroCell | src/matrix/MatrixKit.kt:108-110 | `[[1, 2, 4]] / [[1, 2, 0]]` fails with DivisionByZero for Int matrices |
| Reading.RowStartIsProduct | src/matrix/MatrixKit.kt:55-61 | the counter at the start of row i equals i * cols, so the running counter and the product index agree |
| Reading.UnflattenCell | src/matrix/MatrixKit.kt:55-61 | the row-major layout puts value number RowStart(i, cols) + j (that is, i * cols + j) in cell (i, j) |
| Reading.UnflattenShape | src/matrix/MatrixKit.kt:56-57 | the row-major layout has rowCount rows of colCount cells |
| Reading.FlattenUnflatten | src/matrix/MatrixKit.kt:55-61 | reading the filled matrix back row by row gives the value list |
| Reading.UnflattenFlatten | src/matrix/MatrixKit.kt:55-61 | laying out a full matrix's values row by row rebuilds the matrix |
| Reading.ParseAll | src/matrix/MatrixKit.kt:42-53 | the list parses exactly when every token parses, and then value k is token k's number |
| Reading.ReadGridOutcome | src/matrix/MatrixKit.kt:32-61 | reading fails with InvalidSize exactly on a non-positive dimension. It fails with SizeMismatch exactly when the dimensions are valid and the token count is not rowCount * colCount. It succeeds exactly when, in addition, every token parses |
| Reading.ReadGridCells | src/matrix/MatrixKit.kt:55-61 | a successful read has the declared shape, every cell is populated, and each row's tokens lie inside the token list, and cell (i, j) is the number parsed from token RowStart(i, colCount) + j, that is i * colCount + j |
| Reading.ParsedLayout | src/matrix/MatrixKit.kt:55-61 | laying out parsed tokens row by row gives the declared shape, each row's tokens lie inside the list, every cell is populated, and cell (i, j) holds the number of token RowStart(i, cols) + j |
| Reading.ParsedCell | src/matrix/MatrixKit.kt:55-61 | for one cell (i, j) inside the shape: token RowStart(i, cols) + j exists, and the cell is populated with its parsed number |
| Reading.WrappedTokenCheckAdmitsTooFewTokens | src/matrix/MatrixKit.kt:36 | with the product in 32-bit arithmetic, 65536 tokens pass the check for 65536 × 65537 although that needs 4295032832 tokens; the exact check rejects them |
| Reading.ReadTwoByThree | src/matrix/MatrixKit.kt:36-61 | six tokens for dimensions 2 and 3 give `[[1, 2, 3], [4, 5, 6]]`; five tokens fail with SizeMismatch |
| MatrixKit.Matrix.Create | src/matrix/MatrixKit.kt:11-21 | fails with InvalidSize exactly when a dimension is not positive; otherwise a fresh rowCount × colCount matrix whose every cell is empty |
| MatrixKit.Matrix.FillRowMajor | src/matrix/MatrixKit.kt:55-61 | the nested loops with the running counter leave the matrix equal to the row-major layout of the values |
| MatrixKit.Matrix.ReadMatrix | src/matrix/MatrixKit.kt:32-61 | construction, the token-count check, parsing and the fill produce exactly what the reading specification gives: the same error, or a fresh matrix with its contents |
| MatrixKit.Matrix.CalculateByOperationWithElement | src/matrix/MatrixKit.kt:119-129 | the loops produce exactly the broadcast specification: its first error, or a fresh matrix with cell (i, j) = this[i][j] op element; the receiver is not modified |
| MatrixKit.CalculateMatrixByOperation | src/matrix/MatrixKit.kt:131-145 | the shape check and the loops produce exactly the combination specification: ShapeMismatch, the first cell error, or a fresh matrix with cell (i, j) = first[i][j] op second[i][j]; neither operand is modified |
| MatrixKit.Matrix.Plus | src/matrix/MatrixKit.kt:69-71 | `this + other` is the elementwise PLUS combination |
| MatrixKit.Matrix.PlusElement | src/matrix/MatrixKit.kt:73-75 | `this + element` is the PLUS broadcast |
| MatrixKit.Matrix.Minus | src/matrix/MatrixKit.kt:82-84 | `this - other` is the elementwise MINUS combination |
| MatrixKit.Matrix.MinusElement | src/matrix/MatrixKit.kt:86-88 | `this - element` is the MINUS broadcast |
| MatrixKit.Matrix.Times | src/matrix/MatrixKit.kt:95-97 | `this * other` is the elementwise MULTIPLY combination |
| MatrixKit.Matrix.TimesElement | src/matrix/MatrixKit.kt:99-101 | `this * element` is the MULTIPLY broadcast |
| MatrixKit.Matrix.Div | src/matrix/MatrixKit.kt:108-110 | `this / other` is the elementwise DIVIDE combination |
| MatrixKit.Matrix.DivElement | src/matrix/MatrixKit.kt:112-114 | `this / element` is the DIVIDE broadcast |
| MatrixKit.ElementPlus | src/matrix/MatrixKit.kt:77 | `element + m` as written is `m + element`, the broadcast with the scalar second |
| MatrixKit.ElementMinus | src/matrix/MatrixKit.kt:90 | `element - m` as written is `m - element`, the broadcast with the scalar second |
| MatrixKit.ElementTimes | src/matrix/MatrixKit.kt:103 | `element * m` as written is `m * element`, the broadcast with the scalar second |
| MatrixKit.ElementDiv | src/matrix/MatrixKit.kt:116 | `element / m` as written is `m / element`, the broadcast with the scalar second |
| MatrixKit.CalculateElementByOperation | src/matrix/MatrixKit.kt:90-116 | the corrected scalar-left operation: a fresh matrix with cell (i, j) = element op m[i][j], or the first cell error |

## Left out

- The `Double` and `Float` branches of the dispatcher (src/matrix/MatrixKit.kt:165-180) are not modelled. IEEE rounding, infinities and NaN have no faithful counterpart over Dafny's integers, so a `Value` is only an `Int` or a `Long`.
- The console I/O of `readMatrix` is not modelled: the prompts, the reads of the two dimensions (including a `null` line or a dimension that is not a number) and the read of the value line. `ReadMatrix` receives the two dimensions and the list of tokens as parameters.
- Splitting the value line on spaces is not modelled; the tokens arrive already split.
- Parsing a token (`toInt`, `toLong`) is a parameter `parse` that may fail. The `NumberFormatException` it throws becomes `IncorrectInput`.
- The "Entered value is not a number" branch of `readMatrix` (src/matrix/MatrixKit.kt:48) is not modelled. It is taken only for element classes other than the four numeric kinds, such as `Short`, and such classes have no `Value`.
- The class `Matrix`, `Matrix.isCorrectOperation`, `INITIAL_CAPACITY` and the extension `isPositive` are not part of this model. The model uses these readings: `isCorrectOperation` means equal row and column counts, `isPositive` means greater than zero, and a matrix is a rectangular grid with indexed reads and writes. That grid is an `array2` rather than an array of row arrays, so rows cannot alias.
- The default dimensions `INITIAL_CAPACITY` of the constructor are not modelled; `Create` always takes both dimensions.
- Kotlin's erased generics are replaced by the closed type `Value`. A matrix is not required to hold cells of a single kind. A mixed pair fails with `CastFailure` where the JVM throws `ClassCastException`, and an empty second operand fails with `CastFailure` where the JVM throws a null-cast exception.
- With a closed `Value` type, the dispatcher's "Type is not a number" branch (src/matrix/MatrixKit.kt:181) is reachable only through an empty first cell.
- The exception messages are not modelled; each exception is an `Error` constructor.
- `ReadMatrix` performs the exact token-count check of `Reading.ReadGrid` rather than the 32-bit check as written (see Findings). Under the 32-bit check, an accepted count that is too small leads to an out-of-bounds read during the fill, and that is not modelled.

## Findings

| source | as written | input that shows it | evidently intended | confidence | as-written member | corrected member |
|---|---|---|---|---|---|---|
| src/matrix/MatrixKit.kt:90 | `element - m` evaluates `m - element`, and line 116 makes `element / m` evaluate `m / element` | `10 - [[1]]` gives `[[-9]]`; `10 / [[2]]` gives `[[0]]`; `0 / [[5]]` fails with DivisionByZero | `element op m` with the scalar as first operand: `[[9]]`, `[[5]]`, `[[0]]` | not executed; high for the operand order, which follows directly from lines 90 and 116 | MatrixKit.ElementMinus, MatrixKit.ElementDiv, Grids.ScalarLeftSwapsOperands | MatrixKit.CalculateElementByOperation, Grids.ScalarFirst |
| src/matrix/MatrixKit.kt:36 | `numbers.size != rowCount * colCount` multiplies in 32-bit `Int` and wraps | dimensions 65536 and 65537 with 65536 tokens: the wrapped product is 65536, so the check passes although 4295032832 values are needed | compare against the exact product | not executed; low, because the matrix allocated just before needs about 4.3·10^9 cells | Reading.TokenCountAcceptedAsWritten, Reading.WrappedTokenCheckAdmitsTooFewTokens | Reading.ReadGrid, Reading.ReadGridCells |
