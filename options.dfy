/** The optional value used for "no key seen yet" and "no segment found". */
module Options {
  datatype Option<+T> = None | Some(value: T)
}
