/** Python's `None` beside a value, and a value beside the message of the
    exception raised instead. */
module Optional {
  datatype Option<T> = None | Some(value: T)

  datatype Result<T> = Ok(value: T) | Fail(message: string)
}
