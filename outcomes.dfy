/** Optional values and failures shared by every module of the model. */
module Outcomes {

  /** A value that may be absent: a missing dictionary key, a JavaScript `undefined` or `null`. */
  datatype Option<T> = None | Some(value: T) {
    /** The value, or `default` when absent (Python's `dict.get(key, default)`, JavaScript's `??`). */
    function GetOr(default: T): T {
      if Some? then value else default
    }
  }

  /** The exceptions that the modelled code can raise. */
  datatype Exception =
    | ValueError(missing: string)   // `list.index` of an absent element
    | IndexError(row: int)          // a row index past the end of a matrix
    | KeyError(key: string)         // `d[key]` of an absent key
    | TypeError(property: string)   // JavaScript: reading a property of `undefined`

  /** The outcome of code that either returns a value or raises. */
  datatype Result<T> = Ok(value: T) | Err(error: Exception)
}
