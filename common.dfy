/** Shared vocabulary: optional values, results with an error, and instants. */
module Common {

  /** A value that may be absent (Python's `None`). */
  datatype Option<+T> = None | Some(value: T) {
    function GetOr(default: T): T {
      match this
      case Some(v) => v
      case None => default
    }
  }

  /** The outcome of a computation that may raise. */
  datatype Result<+R, +E> = Success(value: R) | Failure(error: E)

  /** A point in time, in microseconds since the epoch (the resolution of Python's `datetime`). */
  type Instant = int

  /** Microseconds in one day. */
  const MicrosPerDay: int := 86_400_000_000

  /** The larger of two reals (Python's `max` on two floats). */
  function MaxReal(a: real, b: real): (m: real)
    ensures m >= a && m >= b
    ensures m == a || m == b
  {
    if a >= b then a else b
  }
}
