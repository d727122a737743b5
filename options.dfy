/** The optional value used for Go's nil pointers and absent results. */
module Options {

  datatype Option<+T> = None | Some(value: T)
}
