/** The usual Some/None datatype, standing for a C# reference that may be null. */
module Wrappers {
  datatype Option<+T> = None | Some(value: T) {
    /** The C# null-coalescing `x ?? fallback`. */
    function GetOr(fallback: T): T {
      match this
      case Some(v) => v
      case None => fallback
    }
  }
}
