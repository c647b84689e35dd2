/** The optional value used wherever the source works with a value that may be `None`. */
module Options {

  datatype Option<+T> = None | Some(value: T)
}
