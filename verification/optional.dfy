/** A value that may be absent: Python's `None` next to an ordinary value. */
module Optional {

  datatype Option<+T> = None | Some(value: T)
}
