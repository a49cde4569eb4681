/** Values that may be absent and computations that may throw. */
module Outcomes {

  datatype Option<+T> = None | Some(value: T)
  {
    /** The null-coalescing operator. */
    function OrElse(default: Option<T>): Option<T> {
      if Some? then this else default
    }

    function GetOr(default: T): T {
      if Some? then value else default
    }
  }

  datatype Result<+T> = Success(value: T) | Failure(error: string)
}
