/** A value that may be missing: the error paths and nil pointers of the program. */
module Options {

  datatype Option<+T> = None | Some(value: T)
}
