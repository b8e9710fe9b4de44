/** Results of operations that can fail, and of operations that can also be not ready yet. */
module Results {

  datatype Option<+T> = None | Some(value: T)

  datatype Result<+T, +E> = Ok(value: T) | Err(error: E)

  datatype Poll<+T> = Pending | Ready(value: T)

  datatype Unit = Unit
}
