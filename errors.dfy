/** The exceptions the matrix kit throws, one constructor per distinct cause. */
module Errors {

  datatype Error =
    | InvalidSize      // construction: a dimension is not positive ("Size must be bigger than 0")
    | SizeMismatch     // reading: the token count differs from rowCount * colCount
    | IncorrectInput   // reading: a token does not parse as a number of the requested kind
    | ShapeMismatch    // matrix-matrix operation: "Matrix's sizes are not the same"
    | NotANumberType   // per-cell dispatch: the first operand is neither an Int nor a Long
    | CastFailure      // per-cell dispatch: the second operand is empty or of the other kind
    | DivisionByZero   // integer division by zero

  /** The errors that the per-cell dispatch can raise. */
  predicate IsCellError(e: Error) {
    e.NotANumberType? || e.CastFailure? || e.DivisionByZero?
  }
}
