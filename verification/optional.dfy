/** The `Option` datatype used for values JavaScript may leave `null` or `undefined`. */
module Optional {

  datatype Option<+T> = None | Some(value: T)
}
