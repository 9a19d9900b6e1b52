/** The Some/None wrapper used for Python's `X | None` values. */
module Optional {

  datatype Option<+T> = None | Some(value: T)
}
