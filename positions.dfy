/** Positions and ranges in a line-based document: a row (0-based line index)
    and a column (0-based index of a character in that line, which may equal
    the line's length, the end-of-line position). A character here is one
    element of a Dafny string, a Unicode scalar value. */
module Positions {

  datatype Position = Position(row: nat, column: nat)

  /** A half-open span [start, end) of the document. */
  datatype Range = Range(start: Position, end: Position)

  /** The four-number form `new Range(startRow, startColumn, endRow, endColumn)`. */
  function MakeRange(startRow: nat, startColumn: nat, endRow: nat, endColumn: nat): (r: Range) {
    Range(Position(startRow, startColumn), Position(endRow, endColumn))
  }

  /** Row-major order: `a` lies strictly before `b`. */
  predicate Before(a: Position, b: Position) {
    a.row < b.row || (a.row == b.row && a.column < b.column)
  }

  predicate AtOrBefore(a: Position, b: Position) {
    Before(a, b) || a == b
  }
}
