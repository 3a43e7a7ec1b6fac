/**
 * Failure-carrying results shared by every module. The source signals
 * precondition failures by throwing an AssertionException from its
 * validation library, or by a Java runtime exception; both become a
 * `Failure` carrying the kind of fault.
 */
module Wrappers {

  /** A Java reference that may be null. */
  datatype Option<+T> = None | Some(value: T)

  /** Kinds of failure an operation of the kernel can report. */
  datatype Fault =
    | NullArgument            // a required reference was null
    | EmptyInput              // a required array or collection had no elements
    | ContainsNullElement     // an array held a null entry
    | DimensionMismatch       // two operands did not share rank or shape
    | IndexOutOfRange         // a 1-based index fell outside its inclusive range
    | DivisionByZero          // a scalar divisor was within tolerance of zero
    | InvalidShape            // a matrix size or first row was not positive
    | ArrayIndexOutOfBounds   // the Java runtime rejected an array access
    | DegenerateOffset        // a ray's offset has squared length not above tolerance

  datatype Result<+T> = Success(value: T) | Failure(error: Fault)
}
