/** The optional value used where the program either produces something or skips. */
module Options {

  datatype Option<+T> = None | Some(value: T)
}
