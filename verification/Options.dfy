/** An optional value, for the NULL and -1 results of the program. */
module Options {
  datatype Option<+T> = None | Some(value: T)
}
