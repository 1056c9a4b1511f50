/** Failure-carrying results shared by every module of the model. */
module Wrappers {

  datatype Option<T> = None | Some(value: T)

  /** The exceptions the modelled code throws, named by what goes wrong. */
  datatype Error =
    | UndefinedShape          // neither a buffer nor a shape was given
    | AutoShape               // a `-1` placeholder that cannot be resolved
    | ShapeMismatch           // the buffer length is not a multiple of the shape's product
    | DivideByZero            // a zero dimension reaches `%` or `/`
    | IndexOutOfRange         // an array or list read past its end, or too many indices
    | ArgumentOutOfRange      // a range that runs past the end of a buffer
    | BroadcastIncompatible   // two shapes that cannot be aligned
    | AxisOutOfRange          // a reduction axis at or beyond the rank
    | InvalidOperation        // scalar conversion of a non-scalar, or Min/Max of no rows
    | KeyNotFound(key: string)
    | ParseError(token: string)

  datatype Result<T> = Success(value: T) | Failure(error: Error)
}
