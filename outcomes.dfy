/** Absence and failure, as the Java wrappers use them: `null` becomes `None`,
    a thrown exception becomes `Failure`. */
module Outcomes {

  /** A Java reference that may be `null`. */
  datatype Option<+T> = None | Some(value: T)

  /** A value, or the exception that was thrown instead of returning it. */
  datatype Result<+T> = Success(value: T) | Failure(error: Error)

  /** The exceptions the wrapped calls can raise. */
  datatype Error =
    | ParseFailure      // DateTimeParseException: text does not match, or fields out of range
    | UnsupportedField  // UnsupportedTemporalTypeException: a pattern asks for a field the value lacks
    | PatternError      // IllegalArgumentException from compiling an explicit pattern
    | NullArgument      // IllegalArgumentException thrown by compare on a null operand
    | YearOutOfRange    // DateTimeException from LocalDate.of with a year outside java.time's range

  /** Java's `s == null || s.isEmpty()`. */
  predicate IsNullOrEmpty(s: Option<string>) {
    s.None? || s.value == ""
  }
}
