/** Option and Result, the outcome types used across the model. */
module Wrappers {

  /** A value that may be missing: a callback that could not supply bytes, a decode that failed. */
  datatype Option<+T> = None | Some(value: T)

  /** Why an operation of the library throws instead of returning. */
  datatype Error =
    | DataTooLong           // embed payload longer than embedLen()
    | InvalidEncoding       // wrong length or wrong header byte
    | NotUncompressed       // an ANSI X9.62 encoding whose header is not 0x04
    | OutOfRange            // a value does not fit the buffer it is written to (a RangeError or a bn.js assertion)
    | PointDecodeFailure    // coordinate out of range, or no point with that coordinate
    | PointNotOnCurve       // decoded coordinates fail the curve equation
    | InvalidScalarEncoding // scalar encoding longer than marshalSize()
    | InvalidEmbeddedLength // data(): the length byte exceeds embedLen()
    | NullCoordinate        // a coordinate of the point at infinity was read (it is null)
    | InvalidModulus        // a reduction context over a modulus of at most 1 (bn.js asserts modulus > 1)

  /** The outcome of an operation that returns nothing: it completes or it throws. */
  datatype Outcome = Pass | Fail(error: Error)

  /** The result of an operation that either returns a value or throws an error. */
  datatype Result<+T> = Ok(value: T) | Err(error: Error)
}
