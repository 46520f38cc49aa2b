/** Results of the core's operations: a value, or one of the two exceptions
    the graph and the path finder throw at their callers. */
module Outcomes {

  /** A value that may be missing; `None` stands for Java's `null` result. */
  datatype Option<+T> = None | Some(value: T)

  /** The unchecked exceptions the core raises. */
  datatype Failure =
    | IllegalArgument   // IllegalArgumentException: a required node is absent
    | NullPointer       // NullPointerException: `getEdges` of an absent node

  /** Either the value an operation returns or the exception it throws. */
  datatype Result<+R> = Ok(value: R) | Err(failure: Failure)
}
