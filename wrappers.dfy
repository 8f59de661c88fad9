/** Option and the three-way outcome of a throwing Swift call. */
module Wrappers {
  datatype Option<T> = None | Some(value: T)
  {
    function GetOr(default: T): T
    {
      match this
      case Some(v) => v
      case None => default
    }
  }

  /**
   * What a Swift call that `throws` can do: return a value, throw an error,
   * or stop the program (`fatalError`, a force unwrap of nil, a failing
   * integer conversion).
   */
  datatype Outcome<T, E> = Ok(value: T) | Fail(error: E) | Trap
  {
    predicate IsFailure() { !Ok? }
  }
}
