/** Optional values and the failure outcome of the reformatter's operations. */
module Results {

  datatype Option<T> = None | Some(value: T)

  /** The only failure the modelled code can raise: Python's IndexError on an
      out-of-range list subscript (`contents[0]`, `last_two_lines[-2]`,
      `splitlines()[0]`). */
  datatype Failure = IndexError

  /** A value, or the failure that aborts the computation. */
  datatype Result<T> = Ok(value: T) | Err(error: Failure)
}
