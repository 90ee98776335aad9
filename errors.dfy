/** The failures the curve code raises, and the wrappers that carry them. */
module Errors {

  /** The closed set of failures of the curve code. */
  datatype Error =
    | DimensionMismatch   // two vectors of different length were interpolated
    | InvalidInput        // a point with fewer than two components was dehomogenized,
                          // or a B-spline control point does not have three components
    | CardinalityMismatch // the control points and the basis functions differ in number
    | InvalidArrayLength  // an array of negative length was requested

  /** A value, or the failure that prevented computing it. */
  datatype Result<T> = Ok(value: T) | Err(error: Error)

  /** The outcome of an operation that only has effects. */
  datatype Outcome = Pass | Fail(error: Error)
}
