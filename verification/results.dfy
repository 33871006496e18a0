/** The success-or-error outcome of an operation that raises an exception
    in Python's `decimal` module or in `Money`. */
module Results {

  datatype Result<+T, +E> = Ok(value: T) | Err(error: E)

  datatype Option<+T> = None | Some(value: T)
}
