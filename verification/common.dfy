/** Small shared vocabulary: optional values, the pivot side and real absolute value. */
module Common {

  /** A value that may be missing (Python's `None`). */
  datatype Option<T> = None | Some(value: T) {
    /** The value, or `default` when missing. */
    function GetOr(default: T): T {
      match this
      case Some(v) => v
      case None => default
    }
  }

  function Abs(x: real): real {
    if x < 0.0 then -x else x
  }

  /** Which way a pivot turns the rover. */
  datatype Side = LeftSide | RightSide
}
