/** The optional value used for results that may be missing: a payload that
    does not decode, a notification that yields no frame. */
module Options {
  datatype Option<+T> = None | Some(value: T)
}
