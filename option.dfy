/** The usual optional value, for Python's `None` and for "no such clip". */
module Optional {

  datatype Option<T> = None | Some(value: T)
}
