/** Optional values and results that carry an error, shared by all modules. */
module Options {
  datatype Option<+T> = None | Some(value: T) {
    function UnwrapOr(other: T): T {
      if Some? then value else other
    }
  }

  datatype Result<+T, +E> = Ok(value: T) | Err(error: E)
}
