/** The success-or-error value every fallible operation of the model returns,
    in place of the source's sentinel return codes and exceptions. */
module Results {

  datatype Result<+T, +E> = Ok(value: T) | Err(error: E)

  datatype Option<+T> = None | Some(value: T)
}
