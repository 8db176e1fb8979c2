/** The two result shapes the model uses in place of `None` and of an error
    dialog followed by `return`. */
module Optional {
  datatype Option<T> = None | Some(value: T)

  datatype Result<T, E> = Ok(value: T) | Err(error: E)
}
