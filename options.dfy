/** The optional value the model uses where the source returns `undefined` or `null`. */
module Options {

  datatype Option<+T> = None | Some(value: T)
}
