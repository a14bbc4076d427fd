/** The optional result both tables use where C returns a NULL pointer. */
module Options {

  datatype Option<+T> = None | Some(value: T)
}
