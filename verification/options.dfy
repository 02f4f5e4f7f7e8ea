/** The optional value that stands in for Python's `None`-or-object returns. */
module Options {

  datatype Option<+T> = None | Some(value: T)

}
