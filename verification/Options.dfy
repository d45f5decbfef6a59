/** The optional value every component of the model shares. */
module Options {

  datatype Option<+T> = None | Some(value: T)
}
