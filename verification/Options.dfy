// The optional value used for the source's optionals.
module Options {

  datatype Option<+T> = None | Some(value: T)
}
