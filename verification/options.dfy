/** The optional value used for JavaScript's `null`: a pointer that may be
    absent, a key that may be missing. */
module Options {

  datatype Option<+T> = None | Some(value: T)
}
