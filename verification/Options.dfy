/** The optional value that stands for a Python exception or a C error return. */
module Options {
  datatype Option<+T> = None | Some(value: T)
}
