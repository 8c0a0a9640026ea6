/** Optional values and success-or-error results, used in place of Python's
    `None` and of the exceptions the views turn into error responses. */
module Results {

  datatype Option<+T> = None | Some(value: T)

  datatype Result<+T, +E> = Ok(value: T) | Err(error: E)
}
