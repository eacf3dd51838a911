/** Option and Result, the two wrappers the session code returns through `?`. */
module Results {

  datatype Option<+T> = None | Some(value: T) {
    /** `unwrap_or`: the value, or `default` when absent. */
    function GetOr(default: T): T {
      match this
      case Some(v) => v
      case None => default
    }
  }

  datatype Result<+T, +E> = Ok(value: T) | Err(error: E)
}
