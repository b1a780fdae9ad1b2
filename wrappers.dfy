/** Option and the outcome of a controller call. */
module Wrappers {

  datatype Option<+T> = None | Some(value: T)

  /** What a controller hands back to the HTTP layer: a value, a
      "missing resource" signal (status 404) or a generic server-side
      failure (status 500). */
  datatype Outcome<+T> = Ok(value: T) | NotFound | InternalError
}
