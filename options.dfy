/** The optional value used for "a row or nothing" and "a continuation or
    nothing". */
module Options {
  datatype Option<T> = None | Some(value: T)
}
